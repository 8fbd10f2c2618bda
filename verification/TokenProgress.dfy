/**
  What the token protocol of module TokenSpec achieves: exactly which tokens an element that becomes ready
  gets, that a busy port is left alone until then, and that no token is stuck.
 */
module TokenProgress {
  import opened TokenSpec

  // ---------------------------------------------------------------------------------------------
  // Waking and holding back
  // ---------------------------------------------------------------------------------------------

  predicate QueuedFor(q: seq<Tok>, i: int, p: int) { 0 <= i < |q| && q[i].status == Queued && q[i].port == p }

  /** Token i is queued for a ready port, and no earlier one is queued for that port. */
  predicate GetsPosted(q: seq<Tok>, ready: set<int>, i: int)
    requires 0 <= i < |q|
  {
    q[i].status == Queued && q[i].port in ready && forall j :: 0 <= j < i ==> !QueuedFor(q, j, q[i].port)
  }

  /** Posting takes exactly the first queued token of each ready port, and exactly those ports become busy. */
  lemma {:induction false} PostAllExact(q: seq<Tok>, ready: set<int>)
    ensures var r := PostAll(q, ready);
            && |r.0| == |q|
            && (forall i :: 0 <= i < |q| ==>
                  r.0[i] == if GetsPosted(q, ready, i) then q[i].(status := Posted) else q[i])
            && (forall p :: p in r.1 <==> p in ready && forall j :: 0 <= j < |q| ==> !QueuedFor(q, j, p))
    decreases |q|
  {
    if q != [] {
      var t, q' := q[0], q[1..];
      var post := GetsPosted(q, ready, 0);
      var rest := if post then ready - {t.port} else ready;
      PostAllExact(q', rest);
      var r, r' := PostAll(q, ready), PostAll(q', rest);
      assert r.1 == r'.1 && r.0 == [if post then t.(status := Posted) else t] + r'.0;
      hide PostAll;
      forall j, p
        ensures QueuedFor(q, j, p) <==> (j == 0 && t.status == Queued && t.port == p) || QueuedFor(q', j - 1, p)
      {
        assert 0 < j < |q| ==> q'[j - 1] == q[j];
      }
      forall i | 0 < i < |q| ensures r.0[i] == if GetsPosted(q, ready, i) then q[i].(status := Posted) else q[i] {
        PostedLater(q, ready, rest, i);
      }
      forall p ensures p in r.1 <==> p in ready && forall j :: 0 <= j < |q| ==> !QueuedFor(q, j, p) {
        NoneQueued(q, p);
      }
    }
  }

  lemma NoneQueued(q: seq<Tok>, p: int)
    requires q != []
    ensures (forall j :: 0 <= j < |q| ==> !QueuedFor(q, j, p)) <==>
            !(q[0].status == Queued && q[0].port == p) && forall j :: 0 <= j < |q[1..]| ==> !QueuedFor(q[1..], j, p)
  {
    var q' := q[1..];
    assert forall j :: 0 < j < |q| ==> (QueuedFor(q, j, p) <==> QueuedFor(q', j - 1, p));
    if forall j :: 0 <= j < |q| ==> !QueuedFor(q, j, p) {
      assert !QueuedFor(q, 0, p);
      forall j | 0 <= j < |q'| ensures !QueuedFor(q', j, p) {
        assert !QueuedFor(q, j + 1, p);
      }
    }
  }

  lemma PostedLater(q: seq<Tok>, ready: set<int>, rest: set<int>, i: int)
    requires 0 < i < |q|
    requires rest == if GetsPosted(q, ready, 0) then ready - {q[0].port} else ready
    ensures q[1..][i - 1] == q[i] && (GetsPosted(q, ready, i) <==> GetsPosted(q[1..], rest, i - 1))
  {
    var q', p := q[1..], q[i].port;
    if GetsPosted(q, ready, i) {
      assert !QueuedFor(q, 0, p);
      forall j | 0 <= j < i - 1 ensures !QueuedFor(q', j, p) {
        assert !QueuedFor(q, j + 1, p);
      }
    }
    if GetsPosted(q', rest, i - 1) {
      forall j | 0 <= j < i ensures !QueuedFor(q, j, p) {
        if j > 0 {
          assert !QueuedFor(q', j - 1, p);
        }
      }
    }
  }

  /** Token i is the first one that waits for its port. */
  predicate FirstWaiting(q: seq<Tok>, i: int) {
    0 <= i < |q| && q[i].status != Handled && forall j :: 0 <= j < i ==> !Waits(q[j], q[i].port)
  }

  /**
    An element that puts a token on an output while none of its own is posted gets, for every port, the first
    token that waits, and is ready on all ports for which none waits; while one is posted nothing happens.
   */
  lemma SetReadyWakes(e: Elem)
    requires ElemOk(e)
    ensures var e' := Step(e, SetReady);
            && e'.arrived == e.arrived && e'.delivered == e.delivered && (HasPosted(e.queue) ==> e' == e)
            && (!HasPosted(e.queue) ==>
                  && |e'.queue| == |e.queue|
                  && (forall i :: 0 <= i < |e.queue| ==>
                        e'.queue[i] == if FirstWaiting(e.queue, i) then e.queue[i].(status := Posted) else e.queue[i])
                  && (forall p :: 0 <= p < PORTS ==>
                        (p in e'.ready <==> forall i :: 0 <= i < |e.queue| ==> !Waits(e.queue[i], p))))
  {
    hide PostAll, InOrder, GetsPosted, FirstWaiting, QueuedFor, Waits;
    if !HasPosted(e.queue) {
      PostAllExact(e.queue, AllPorts());
      forall i | 0 <= i < |e.queue| ensures GetsPosted(e.queue, AllPorts(), i) <==> FirstWaiting(e.queue, i) {
        PostedIsFirst(e.queue, i);
      }
      forall p, i | 0 <= i < |e.queue| ensures QueuedFor(e.queue, i, p) <==> Waits(e.queue[i], p) {
        QueuedIsWaiting(e.queue, i, p);
      }
    }
  }

  lemma QueuedIsWaiting(q: seq<Tok>, i: int, p: int)
    requires !HasPosted(q) && 0 <= i < |q|
    ensures QueuedFor(q, i, p) <==> Waits(q[i], p)
  {
    assert q[i].status != Posted;
  }

  lemma PostedIsFirst(q: seq<Tok>, i: int)
    requires !HasPosted(q) && 0 <= i < |q| && 0 <= q[i].port < PORTS
    ensures GetsPosted(q, AllPorts(), i) <==> FirstWaiting(q, i)
  {
    hide QueuedFor, Waits;
    assert q[i].status != Posted;
    forall j | 0 <= j < |q| ensures QueuedFor(q, j, q[i].port) <==> Waits(q[j], q[i].port) {
      QueuedIsWaiting(q, j, q[i].port);
    }
  }

  /** Every port is ready, or its first waiting token is posted. */
  lemma NoPortIsForgotten(e: Elem, p: int)
    requires ElemOk(e) && !HasPosted(e.queue) && 0 <= p < PORTS
    ensures var e' := Step(e, SetReady);
            || p in e'.ready
            || exists i :: FirstWaiting(e.queue, i) && e'.queue[i].port == p && e'.queue[i].status == Posted
  {
    SetReadyWakes(e);
    var e' := Step(e, SetReady);
    if p !in e'.ready {
      var i :| 0 <= i < |e.queue| && Waits(e.queue[i], p);
      var f := FirstFor(e.queue, p, i);
      assert e'.queue[f].port == p && e'.queue[f].status == Posted;
    }
  }

  lemma {:induction false} FirstFor(q: seq<Tok>, p: int, i: int) returns (f: int)
    requires 0 <= i < |q| && Waits(q[i], p)
    ensures FirstWaiting(q, f) && q[f].port == p
    decreases i
  {
    if j :| 0 <= j < i && Waits(q[j], p) {
      f := FirstFor(q, p, j);
    } else {
      f := i;
    }
  }

  // ---------------------------------------------------------------------------------------------
  // Runs
  // ---------------------------------------------------------------------------------------------

  /** Steps from any state on. */
  ghost predicate Continues(es: seq<Elem>, actions: seq<Action>) {
    && |es| == |actions| + 1
    && forall i :: 0 <= i < |actions| ==> Enabled(es[i], actions[i]) && es[i + 1] == Step(es[i], actions[i])
  }

  /**
    A port that has returned -EBUSY stays busy until the element puts a token on an output: every token that
    arrives for it meanwhile is queued, and only tokens that were posted before are delivered.
   */
  lemma {:induction false} BusyIsHeldBack(es: seq<Elem>, actions: seq<Action>, p: int, k: nat)
    requires Continues(es, actions) && actions != [] && actions[0] == Busy(p) && 0 < k < |es|
    requires forall i :: 0 < i < k ==> actions[i] != SetReady
    ensures p !in es[k].ready
    ensures k < |actions| && actions[k].Arrive? && actions[k].port == p ==>
      var a := actions[k];
      es[k + 1].delivered == es[k].delivered && es[k + 1].queue == es[k].queue + [Tok(a.id, p, a.data, Queued)]
    decreases k
  {
    assert Enabled(es[k - 1], actions[k - 1]) && es[k] == Step(es[k - 1], actions[k - 1]);
    if k > 1 {
      BusyIsHeldBack(es, actions, p, k - 1);
    }
    if k < |actions| {
      assert es[k + 1] == Step(es[k], actions[k]);
    }
  }

  ghost predicate UniqueIds(q: seq<Tok>) { forall i, j :: 0 <= i < j < |q| ==> q[i].id != q[j].id }

  lemma StepKeepsIds(e: Elem, a: Action)
    requires ElemOk(e) && UniqueIds(e.queue) && Enabled(e, a)
    ensures UniqueIds(Step(e, a).queue)
  {
    hide Position;
    match a
    case Arrive(_, _, _) =>
    case Busy(_) =>
    case SetReady => SetReadyWakes(e);
    case Begin(_) =>
    case Finish(id) =>
      var i, e' := Position(e.queue, id), Step(e, a);
      assert forall k :: 0 <= k < |e'.queue| ==> e'.queue[k] == e.queue[if k < i then k else k + 1];
  }

  lemma {:induction false} RunKeepsIds(es: seq<Elem>, actions: seq<Action>, k: nat)
    requires IsRun(es, actions) && k < |es|
    ensures UniqueIds(es[k].queue)
    decreases k
  {
    if k > 0 {
      RunKeepsIds(es, actions, k - 1);
      RunKeepsElem(es, actions, k - 1);
      StepKeepsIds(es[k - 1], actions[k - 1]);
    }
  }

  lemma Earlier(e: Elem, a: Action, es: seq<Elem>, actions: seq<Action>) returns (es': seq<Elem>, actions': seq<Action>)
    requires Enabled(e, a) && Continues(es, actions) && es[0] == Step(e, a)
    ensures Continues(es', actions') && es'[0] == e && es'[|es'| - 1] == es[|es| - 1]
  {
    es', actions' := [e] + es, [a] + actions;
    forall i | 0 <= i < |actions'| ensures Enabled(es'[i], actions'[i]) && es'[i + 1] == Step(es'[i], actions'[i]) {
      if i > 0 {
        assert es'[i] == es[i - 1] && es'[i + 1] == es[i] && actions'[i] == actions[i - 1];
      }
    }
  }

  ghost predicate Fine(e: Elem) { ElemOk(e) && UniqueIds(e.queue) }

  /** The task of a posted token begins and ends. */
  lemma Served(e: Elem, i: int) returns (e1: Elem, e2: Elem)
    requires Fine(e) && 0 <= i < |e.queue| && e.queue[i].status == Posted
    ensures var id := e.queue[i].id;
            Enabled(e, Begin(id)) && e1 == Step(e, Begin(id)) && Enabled(e1, Finish(id)) && e2 == Step(e1, Finish(id))
    ensures Fine(e2) && |e2.queue| == |e.queue| - 1 && e2.arrived == e.arrived
  {
    hide ElemOk, Position;
    var id := e.queue[i].id;
    assert Position(e.queue, id) == i;
    e1 := Step(e, Begin(id));
    StepKeepsElem(e, Begin(id));
    StepKeepsIds(e, Begin(id));
    assert e1.queue[i].id == id;
    assert Position(e1.queue, id) == i;
    e2 := Step(e1, Finish(id));
    StepKeepsElem(e1, Finish(id));
    StepKeepsIds(e1, Finish(id));
  }

  /** From every correct state the element can work off its queue. */
  lemma {:induction false} Drain(e: Elem) returns (es: seq<Elem>, actions: seq<Action>)
    requires Fine(e)
    ensures Continues(es, actions) && es[0] == e
    ensures var last := es[|es| - 1]; Fine(last) && last.queue == [] && last.arrived == e.arrived
    decreases |e.queue|
  {
    hide ElemOk, UniqueIds, Position, PostAll;
    if e.queue == [] {
      es, actions := [e], [];
    } else if e.queue[0].status == Handled {
      var id := e.queue[0].id;
      assert Position(e.queue, id) == 0;
      var e1 := Step(e, Finish(id));
      StepKeepsElem(e, Finish(id));
      StepKeepsIds(e, Finish(id));
      es, actions := Drain(e1);
      es, actions := Earlier(e, Finish(id), es, actions);
    } else if HasPosted(e.queue) {
      var i :| 0 <= i < |e.queue| && e.queue[i].status == Posted;
      es, actions := DrainPosted(e, i);
    } else {
      SetReadyWakes(e);
      StepKeepsElem(e, SetReady);
      StepKeepsIds(e, SetReady);
      var e0 := Step(e, SetReady);
      assert FirstWaiting(e.queue, 0);
      es, actions := DrainPosted(e0, 0);
      es, actions := Earlier(e, SetReady, es, actions);
    }
  }

  lemma {:induction false} DrainPosted(e: Elem, i: int) returns (es: seq<Elem>, actions: seq<Action>)
    requires Fine(e) && 0 <= i < |e.queue| && e.queue[i].status == Posted
    ensures Continues(es, actions) && es[0] == e
    ensures var last := es[|es| - 1]; Fine(last) && last.queue == [] && last.arrived == e.arrived
    decreases |e.queue|, 0
  {
    hide Fine, Enabled, Step;
    var id := e.queue[i].id;
    var e1, e2 := Served(e, i);
    es, actions := Drain(e2);
    es, actions := Earlier(e1, Finish(id), es, actions);
    es, actions := Earlier(e, Begin(id), es, actions);
  }

  /**
    No token is stuck: every state of every run can be continued, without further arrivals, to one in which
    every port has been delivered all the tokens that arrived for it, in order.
   */
  lemma EveryTokenCanBeDelivered(es: seq<Elem>, actions: seq<Action>, k: nat)
    returns (more: seq<Elem>, next: seq<Action>)
    requires IsRun(es, actions) && k < |es|
    ensures Continues(more, next) && more[0] == es[k]
    ensures var last := more[|more| - 1];
            last.arrived == es[k].arrived && last.queue == []
            && forall p :: OnPort(last.delivered, p) == OnPort(es[k].arrived, p)
  {
    RunKeepsElem(es, actions, k);
    RunKeepsIds(es, actions, k);
    more, next := Drain(es[k]);
    var last := more[|more| - 1];
    forall p ensures OnPort(last.delivered, p) == OnPort(last.arrived, p) {
      assert OnPort(last.arrived, p) == OnPort(last.delivered, p) + Waiting(last.queue, p);
      assert OnPort(last.delivered, p) + [] == OnPort(last.delivered, p);
    }
  }
}
