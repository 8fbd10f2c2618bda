/**
  The token protocol of extensions/dataflow/wiring_engine.c for one element, as a state machine.  Its
  steps end where the engine calls into an element, so that their sequences cover all nested calls.
 */
module TokenSpec {

  const PORTS := 8

  datatype Status = Queued | Posted | Handled

  /** A token in the element's queue; id stands for its address. */
  datatype Tok = Tok(id: int, port: int, data: int, status: Status)

  /** A token on its way to a port. */
  datatype Item = Item(port: int, data: int)

  /**
    ready: the ports whose bit in the busy mask is set; queue: the token queue; arrived and delivered:
    all tokens that were put on connected output ports, and all that the element was called with.
   */
  datatype Elem = Elem(ready: set<int>, queue: seq<Tok>, arrived: seq<Item>, delivered: seq<Item>)

  datatype Action =
    | Arrive(port: int, data: int, id: int)  // dispatch reaches the port
    | Busy(port: int)                        // a call to the port has returned -EBUSY
    | SetReady                               // the element has put a token on one of its outputs
    | Begin(id: int)                         // MSG_CONTINUE_TASK for the token, up to the call
    | Finish(id: int)                        // the call has returned, and the token is removed

  /** The data that went to port p. */
  function OnPort(s: seq<Item>, p: int): seq<int>
    decreases |s|
  {
    if s == [] then [] else
    var n := |s| - 1;
    OnPort(s[..n], p) + if s[n].port == p then [s[n].data] else []
  }

  predicate Waits(t: Tok, p: int) { t.port == p && t.status != Handled }

  /** The data of the tokens that wait for port p. */
  function Waiting(q: seq<Tok>, p: int): seq<int>
    decreases |q|
  {
    if q == [] then [] else (if Waits(q[0], p) then [q[0].data] else []) + Waiting(q[1..], p)
  }

  ghost predicate HasPosted(q: seq<Tok>) { exists i :: 0 <= i < |q| && q[i].status == Posted }

  /** The position of the token, or the length of the queue. */
  function Position(q: seq<Tok>, id: int): (i: nat)
    ensures i <= |q| && (i < |q| ==> q[i].id == id) && forall j :: 0 <= j < i ==> q[j].id != id
    decreases |q|
  {
    if q == [] || q[0].id == id then 0 else 1 + Position(q[1..], id)
  }

  /** post_tokens_for_all_ports: the queue and the ready ports afterwards. */
  function PostAll(q: seq<Tok>, ready: set<int>): (r: (seq<Tok>, set<int>))
    ensures |r.0| == |q| && r.1 <= ready
    decreases |q|
  {
    if q == [] then ([], ready)
    else if q[0].status == Queued && q[0].port in ready then
      var r := PostAll(q[1..], ready - {q[0].port});
      ([q[0].(status := Posted)] + r.0, r.1)
    else
      var r := PostAll(q[1..], ready);
      ([q[0]] + r.0, r.1)
  }

  function AllPorts(): set<int> { {0, 1, 2, 3, 4, 5, 6, 7} }

  ghost predicate Enabled(e: Elem, a: Action) {
    match a
    case Arrive(p, d, id) => 0 <= p < PORTS && forall i :: 0 <= i < |e.queue| ==> e.queue[i].id != id
    case Busy(p) => 0 <= p < PORTS
    case SetReady => true
    case Begin(id) => var i := Position(e.queue, id); i < |e.queue| && e.queue[i].status == Posted
    case Finish(id) => var i := Position(e.queue, id); i < |e.queue| && e.queue[i].status == Handled
  }

  ghost function Step(e: Elem, a: Action): Elem
    requires Enabled(e, a)
  {
    match a
    case Arrive(p, d, id) =>
      if p in e.ready then e.(arrived := e.arrived + [Item(p, d)], delivered := e.delivered + [Item(p, d)])
      else e.(arrived := e.arrived + [Item(p, d)], queue := e.queue + [Tok(id, p, d, Queued)])
    case Busy(p) => e.(ready := e.ready - {p})
    case SetReady =>
      if HasPosted(e.queue) then e
      else var r := PostAll(e.queue, AllPorts()); e.(queue := r.0, ready := r.1)
    case Begin(id) =>
      var i := Position(e.queue, id);
      var t := e.queue[i];
      e.(queue := e.queue[i := t.(status := Handled)], delivered := e.delivered + [Item(t.port, t.data)])
    case Finish(id) =>
      var i := Position(e.queue, id);
      e.(queue := e.queue[..i] + e.queue[i + 1..])
  }

  /** Ports of queued tokens are valid; ready ports wait for nothing; a posted token is the first one waiting. */
  ghost predicate QueueOk(q: seq<Tok>, ready: set<int>) {
    && (forall i :: 0 <= i < |q| ==> 0 <= q[i].port < PORTS)
    && (forall i :: 0 <= i < |q| && q[i].status != Handled ==> q[i].port !in ready)
    && (forall i, j :: 0 <= i < j < |q| && q[j].status == Posted ==> !Waits(q[i], q[j].port))
  }

  /** Every port has been delivered the tokens that arrived for it, in order, up to those that wait. */
  ghost predicate InOrder(e: Elem) {
    forall p {:trigger OnPort(e.arrived, p)} :: OnPort(e.arrived, p) == OnPort(e.delivered, p) + Waiting(e.queue, p)
  }

  ghost predicate ElemOk(e: Elem) { QueueOk(e.queue, e.ready) && InOrder(e) }

  lemma OnPortAppend(s: seq<Item>, x: Item, p: int)
    ensures OnPort(s + [x], p) == OnPort(s, p) + if x.port == p then [x.data] else []
  {
  }

  lemma {:induction false} WaitingConcat(a: seq<Tok>, b: seq<Tok>, p: int)
    ensures Waiting(a + b, p) == Waiting(a, p) + Waiting(b, p)
    decreases |a|
  {
    if a == [] {
      assert a + b == b && [] + Waiting(b, p) == Waiting(b, p);
    } else {
      WaitingConcat(a[1..], b, p);
      assert (a + b)[0] == a[0] && (a + b)[1..] == a[1..] + b;
      var h := if Waits(a[0], p) then [a[0].data] else [];
      assert h + (Waiting(a[1..], p) + Waiting(b, p)) == (h + Waiting(a[1..], p)) + Waiting(b, p);
    }
  }

  /** The queue around position i. */
  lemma WaitingAt(q: seq<Tok>, i: int, p: int)
    requires 0 <= i < |q|
    ensures Waiting(q, p) == Waiting(q[..i], p) + (if Waits(q[i], p) then [q[i].data] else []) + Waiting(q[i + 1..], p)
  {
    assert q == q[..i] + ([q[i]] + q[i + 1..]);
    WaitingConcat(q[..i], [q[i]] + q[i + 1..], p);
    assert ([q[i]] + q[i + 1..])[1..] == q[i + 1..];
    var h := if Waits(q[i], p) then [q[i].data] else [];
    assert Waiting(q[..i], p) + (h + Waiting(q[i + 1..], p)) == Waiting(q[..i], p) + h + Waiting(q[i + 1..], p);
  }

  lemma {:induction false} NothingWaits(q: seq<Tok>, p: int)
    requires forall i :: 0 <= i < |q| ==> !Waits(q[i], p)
    ensures Waiting(q, p) == []
    decreases |q|
  {
    if q != [] {
      NothingWaits(q[1..], p);
    }
  }

  // ---------------------------------------------------------------------------------------------
  // Every step keeps the invariant
  // ---------------------------------------------------------------------------------------------

  lemma ArriveKeeps(e: Elem, p: int, d: int, id: int)
    requires ElemOk(e) && Enabled(e, Arrive(p, d, id))
    ensures ElemOk(Step(e, Arrive(p, d, id)))
  {
    hide OnPort, Waiting;
    var e' := Step(e, Arrive(p, d, id));
    forall x {:trigger OnPort(e'.arrived, x)}
      ensures OnPort(e'.arrived, x) == OnPort(e'.delivered, x) + Waiting(e'.queue, x)
    {
      OnPortAppend(e.arrived, Item(p, d), x);
      assert OnPort(e.arrived, x) == OnPort(e.delivered, x) + Waiting(e.queue, x);
      var more := if p == x then [d] else [];
      if p in e.ready {
        OnPortAppend(e.delivered, Item(p, d), x);
        if p == x {
          NothingWaits(e.queue, x);
        }
        assert OnPort(e.delivered, x) + [] == OnPort(e.delivered, x);
        assert (OnPort(e.delivered, x) + Waiting(e.queue, x)) + more ==
               (OnPort(e.delivered, x) + more) + Waiting(e.queue, x);
      } else {
        WaitingConcat(e.queue, [Tok(id, p, d, Queued)], x);
        WaitsAlone(Tok(id, p, d, Queued), x);
        assert (OnPort(e.delivered, x) + Waiting(e.queue, x)) + more ==
               OnPort(e.delivered, x) + (Waiting(e.queue, x) + more);
      }
    }
  }

  lemma WaitsAlone(t: Tok, p: int)
    ensures Waiting([t], p) == if Waits(t, p) then [t.data] else []
  {
  }

  lemma BeginKeeps(e: Elem, id: int)
    requires ElemOk(e) && Enabled(e, Begin(id))
    ensures ElemOk(Step(e, Begin(id)))
  {
    hide OnPort, Waiting, Position;
    var e', i := Step(e, Begin(id)), Position(e.queue, id);
    var t := e.queue[i];
    forall x {:trigger OnPort(e'.arrived, x)}
      ensures OnPort(e'.arrived, x) == OnPort(e'.delivered, x) + Waiting(e'.queue, x)
    {
      assert OnPort(e.arrived, x) == OnPort(e.delivered, x) + Waiting(e.queue, x);
      OnPortAppend(e.delivered, Item(t.port, t.data), x);
      WaitingAt(e.queue, i, x);
      WaitingAt(e'.queue, i, x);
      assert e'.queue[..i] == e.queue[..i] && e'.queue[i + 1..] == e.queue[i + 1..];
      var a, b := Waiting(e.queue[..i], x), Waiting(e.queue[i + 1..], x);
      if t.port == x {
        NothingWaits(e.queue[..i], x);
        assert OnPort(e.delivered, x) + ([] + [t.data] + b) == (OnPort(e.delivered, x) + [t.data]) + ([] + [] + b);
      } else {
        assert a + [] + b == a + b && OnPort(e.delivered, x) + [] == OnPort(e.delivered, x);
      }
    }
  }

  lemma FinishKeeps(e: Elem, id: int)
    requires ElemOk(e) && Enabled(e, Finish(id))
    ensures ElemOk(Step(e, Finish(id)))
  {
    hide OnPort, Waiting, Position;
    var e', i := Step(e, Finish(id)), Position(e.queue, id);
    assert forall k :: 0 <= k < |e'.queue| ==> e'.queue[k] == e.queue[if k < i then k else k + 1];
    forall x {:trigger OnPort(e'.arrived, x)}
      ensures OnPort(e'.arrived, x) == OnPort(e'.delivered, x) + Waiting(e'.queue, x)
    {
      assert OnPort(e.arrived, x) == OnPort(e.delivered, x) + Waiting(e.queue, x);
      WaitingAt(e.queue, i, x);
      WaitingConcat(e.queue[..i], e.queue[i + 1..], x);
      assert Waiting(e.queue[..i], x) + [] == Waiting(e.queue[..i], x);
    }
  }

  /** Posting changes no order, and leaves ready only ports for which nothing waits. */
  lemma {:induction false} PostAllOk(q: seq<Tok>, ready: set<int>, p: int)
    ensures Waiting(PostAll(q, ready).0, p) == Waiting(q, p)
    decreases |q|
  {
    if q != [] {
      var rest := if q[0].status == Queued && q[0].port in ready then ready - {q[0].port} else ready;
      PostAllOk(q[1..], rest, p);
      var r := PostAll(q, ready).0;
      assert r[1..] == PostAll(q[1..], rest).0;
      assert Waits(r[0], p) <==> Waits(q[0], p);
    }
  }

  lemma {:induction false} PostAllQueue(q: seq<Tok>, ready: set<int>)
    requires forall i :: 0 <= i < |q| ==> 0 <= q[i].port < PORTS
    requires forall i :: 0 <= i < |q| ==> q[i].status != Posted
    ensures var r := PostAll(q, ready);
            && (forall i :: 0 <= i < |q| ==> r.0[i].port == q[i].port && r.0[i].id == q[i].id)
            && (forall i :: 0 <= i < |q| ==> (r.0[i].status == Handled <==> q[i].status == Handled))
            && (forall i :: 0 <= i < |q| && r.0[i].status != Handled ==> r.0[i].port !in r.1)
            && (forall i :: 0 <= i < |q| && r.0[i].status == Posted ==> r.0[i].port in ready)
            && (forall i, j :: 0 <= i < j < |q| && r.0[j].status == Posted ==>
                  r.0[i].port in ready ==> !Waits(r.0[i], r.0[j].port))
    decreases |q|
  {
    if q != [] {
      var t := q[0];
      var post := t.status == Queued && t.port in ready;
      var rest := if post then ready - {t.port} else ready;
      PostAllQueue(q[1..], rest);
      var r, r' := PostAll(q, ready), PostAll(q[1..], rest);
      assert r.1 == r'.1 && r.0 == [if post then t.(status := Posted) else t] + r'.0;
      assert forall i :: 0 < i < |q| ==> r.0[i] == r'.0[i - 1] && q[i] == q[1..][i - 1];
    }
  }

  lemma SetReadyKeeps(e: Elem)
    requires ElemOk(e)
    ensures ElemOk(Step(e, SetReady))
  {
    hide OnPort, Waiting, PostAll;
    if !HasPosted(e.queue) {
      var e' := Step(e, SetReady);
      PostAllQueue(e.queue, AllPorts());
      forall x {:trigger OnPort(e'.arrived, x)}
        ensures OnPort(e'.arrived, x) == OnPort(e'.delivered, x) + Waiting(e'.queue, x)
      {
        assert OnPort(e.arrived, x) == OnPort(e.delivered, x) + Waiting(e.queue, x);
        PostAllOk(e.queue, AllPorts(), x);
      }
    }
  }

  lemma StepKeepsElem(e: Elem, a: Action)
    requires ElemOk(e) && Enabled(e, a)
    ensures ElemOk(Step(e, a))
  {
    match a
    case Arrive(p, d, id) => ArriveKeeps(e, p, d, id);
    case Busy(p) =>
      assert forall x {:trigger OnPort(Step(e, a).arrived, x)} ::
          OnPort(e.arrived, x) == OnPort(e.delivered, x) + Waiting(e.queue, x);
    case SetReady => SetReadyKeeps(e);
    case Begin(id) => BeginKeeps(e, id);
    case Finish(id) => FinishKeeps(e, id);
  }

  // ---------------------------------------------------------------------------------------------
  // Runs
  // ---------------------------------------------------------------------------------------------

  ghost predicate IsRun(es: seq<Elem>, actions: seq<Action>) {
    && |es| == |actions| + 1 && es[0] == Elem(AllPorts(), [], [], [])
    && forall i :: 0 <= i < |actions| ==> Enabled(es[i], actions[i]) && es[i + 1] == Step(es[i], actions[i])
  }

  lemma {:induction false} RunKeepsElem(es: seq<Elem>, actions: seq<Action>, k: nat)
    requires IsRun(es, actions) && k < |es|
    ensures ElemOk(es[k])
    decreases k
  {
    if k > 0 {
      RunKeepsElem(es, actions, k - 1);
      StepKeepsElem(es[k - 1], actions[k - 1]);
    }
  }

  /**
    In every run and for every port: what was delivered is a prefix of what arrived, the rest waits in the
    order of arrival, a ready port waits for nothing, and at most one token of the port is posted.
   */
  lemma TokensInOrder(es: seq<Elem>, actions: seq<Action>, k: nat, p: int)
    requires IsRun(es, actions) && k < |es|
    ensures OnPort(es[k].arrived, p) == OnPort(es[k].delivered, p) + Waiting(es[k].queue, p)
    ensures p in es[k].ready ==> Waiting(es[k].queue, p) == []
    ensures forall i, j :: 0 <= i < j < |es[k].queue| && es[k].queue[i].port == p == es[k].queue[j].port ==>
              !(es[k].queue[i].status == Posted && es[k].queue[j].status == Posted)
  {
    hide OnPort, Waiting;
    RunKeepsElem(es, actions, k);
    if p in es[k].ready {
      NothingWaits(es[k].queue, p);
    }
  }

  /** Posting has gone over the first i tokens of q. */
  ghost predicate PostedTo(q: seq<Tok>, ready: set<int>, i: int, q': seq<Tok>, ready': set<int>) {
    && 0 <= i <= |q| == |q'| && q'[i..] == q[i..]
    && PostAll(q, ready) == (q'[..i] + PostAll(q[i..], ready').0, PostAll(q[i..], ready').1)
  }

  lemma PostStep(q: seq<Tok>, ready: set<int>, i: int, q': seq<Tok>, ready': set<int>)
    requires PostedTo(q, ready, i, q', ready') && i < |q|
    ensures q'[i] == q[i]
    ensures if q[i].status == Queued && q[i].port in ready'
            then PostedTo(q, ready, i + 1, q'[i := q[i].(status := Posted)], ready' - {q[i].port})
            else PostedTo(q, ready, i + 1, q', ready')
  {
    assert q'[i] == q'[i..][0] && q[i] == q[i..][0];
    assert q[i..][1..] == q[i + 1..] && q'[i..][1..] == q'[i + 1..];
    var t := if q[i].status == Queued && q[i].port in ready' then q[i].(status := Posted) else q[i];
    var rest := if q[i].status == Queued && q[i].port in ready' then ready' - {q[i].port} else ready';
    var r := PostAll(q[i + 1..], rest).0;
    assert PostAll(q[i..], ready') == ([t] + r, PostAll(q[i + 1..], rest).1);
    hide PostAll;
    assert q'[i := t][..i + 1] == q'[..i] + [t];
    assert q'[..i] + ([t] + r) == q'[i := t][..i + 1] + r;
    assert q'[i := t][i + 1..] == q[i + 1..];
    assert t == q[i] ==> q'[i := t] == q';
  }

  lemma PostEnds(q: seq<Tok>, ready: set<int>, q': seq<Tok>, ready': set<int>)
    ensures PostedTo(q, ready, 0, q, ready)
    ensures PostedTo(q, ready, |q|, q', ready') ==> PostAll(q, ready) == (q', ready')
  {
    assert q[0..] == q && q[..0] == [] && [] + PostAll(q, ready).0 == PostAll(q, ready).0;
    if PostedTo(q, ready, |q|, q', ready') {
      assert q[|q|..] == [] && q'[..|q|] == q' && q' + [] == q';
    }
  }
}
