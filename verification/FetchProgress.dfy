/**
  What the fetch protocol of module FetchProtocol achieves: each handler makes the progress it is there
  for, a fetch succeeds exactly when all its missing fragments arrive, and from every correct state of
  the network a fetch can be brought to its end.
 */
module FetchProgress {
  import opened Common
  import opened FetchProtocol

  // ---------------------------------------------------------------------------------------------
  // The handlers
  // ---------------------------------------------------------------------------------------------

  /** A missing fragment is stored and missing no more; the last one ends the fetch with one report of success. */
  lemma FragmentProgress(n: Node, id: int, data: Frag)
    requires n.cam && n.fetch.Some? && id in n.fetch.value.missing
    ensures var f, n' := n.fetch.value, OnFragment(n, id, data);
            && n'.store == n.store[id := data] && n'.parked == n.parked
            && (f.missing != {id} ==> n'.reports == n.reports && n'.fetch == Some(Fetch(f.missing - {id}, 0, f.src)))
            && (f.missing == {id} ==> n'.fetch == None && OneMoreReport(n, n') && Succeeded(LastReport(n'))
                                      && LastReport(n').store == n'.store)
  {
    assert n.fetch.value.missing - {id} == {} <==> n.fetch.value.missing == {id};
  }

  ghost predicate OneMoreReport(n: Node, n': Node) {
    |n'.reports| == |n.reports| + 1 && n'.reports[..|n.reports|] == n.reports
  }

  function LastReport(n: Node): Report
    requires n.reports != []
  {
    n.reports[|n.reports| - 1]
  }

  /** Any other fragment changes no content and no report; whoever sent it, it need not be offered any more. */
  lemma FragmentOverheard(n: Node, id: int, data: Frag)
    ensures var n' := OnFragment(n, id, data);
            && Offered(n') == Offered(n) - {id} && (n'.offer.Some? <==> n.offer.Some?)
            && (n.offer.Some? ==> n'.offer.value.dest == n.offer.value.dest)
            && (n.fetch.Some? && n'.fetch.Some? ==> n'.fetch.value.retx == 0)
            && (n.fetch.None? || !n.cam || id !in n.fetch.value.missing ==>
                  && n'.store == n.store && n'.reports == n.reports && (n'.fetch.Some? <==> n.fetch.Some?)
                  && (n.fetch.Some? ==> n'.fetch.value.missing == n.fetch.value.missing))
  {
  }

  /** What the node is still looking for. */
  function Missing(n: Node): set<int> { if n.fetch.Some? then n.fetch.value.missing else {} }

  /** A node with the key offers every wanted fragment that it does not miss, and what it offered before. */
  lemma RequestProgress(n: Node, src: int, wanted: set<int>, f: int)
    ensures var n' := OnRequest(n, src, wanted);
            && (n.cam || n.offer.Some? ==>
                  n'.offer.Some? && (f in Offered(n') <==> (f in Offered(n) || f in wanted) && f !in Missing(n)))
            && (n.offer.None? && n.cam ==> n'.offer.value.dest == src)
            && (n.offer.Some? ==> n'.offer.value.dest == n.offer.value.dest)
            && (!n.cam && n.offer.None? ==> n' == n)
            && n' == n.(offer := n'.offer)
  {
  }

  /** The request timer asks the source for exactly what is missing, up to the limit. */
  lemma TimeoutProgress(n: Node, self: int)
    requires n.fetch.Some?
    ensures var f, (n', m) := n.fetch.value, OnRequestTimeout(n, self);
            && (m.Some? <==> f.retx < MAX_RETX)
            && (m.Some? ==> m.value == Request(f.src, self, f.missing) && n' == n.(fetch := n'.fetch)
                            && n'.fetch == Some(Fetch(f.missing, f.retx + 1, f.src)))
            && (m.None? ==> n'.fetch.None? && n'.parked == Some(Fetch(f.missing, f.retx + 1, f.src))
                            && OneMoreReport(n, n') && !Succeeded(LastReport(n')))
  {
  }

  /** The transmit timer sends the stored fragment while there is room in the queue, and ends an offer that is done. */
  lemma TransmitProgress(n: Node, id: int)
    requires WillSend(n) ==> id in n.offer.value.wanted && id in n.store
    ensures var (n', m) := OnTransmitTimeout(n, id);
            && (m.Some? <==> n.queued < MAX_IN_QUEUE && n.cam && Offered(n) != {})
            && (m.Some? ==> m.value == Fragment(id, n.store[id]) && Offered(n') == Offered(n) - {id}
                            && (n'.offer.Some? <==> Offered(n) != {id}) && n'.queued == n.queued + 1)
            && (m.Some? && 0 <= n.queued ==> OnSendDone(n').queued == n.queued)
            && (m.None? ==> n'.queued == n.queued && (n'.offer.Some? <==> n.offer.Some? && n.queued >= MAX_IN_QUEUE))
            && n' == n.(offer := n'.offer, queued := n'.queued)
  {
    if WillSend(n) {
      assert Offered(n) - {id} == {} <==> Offered(n) == {id};
    }
  }

  /** k request timeouts in a row. */
  function Waited(n: Node, self: int, k: nat): Node {
    if k == 0 then n else OnRequestTimeout(Waited(n, self, k - 1), self).0
  }

  /** A fetch that hears nothing asks three times, and reports failure once with the fourth timeout. */
  lemma {:induction false} GivesUp(n: Node, self: int, k: nat)
    requires n.fetch.Some? && n.fetch.value.retx == 0
    ensures var f, n' := n.fetch.value, Waited(n, self, k);
            && (k <= MAX_RETX ==> n' == n.(fetch := Some(Fetch(f.missing, k, f.src))))
            && (k > MAX_RETX ==> n'.fetch.None? && n'.parked == Some(Fetch(f.missing, MAX_RETX + 1, f.src))
                                 && OneMoreReport(n, n') && !Succeeded(LastReport(n')))
  {
    if k > 0 {
      GivesUp(n, self, k - 1);
    }
  }

  /** A request to somebody else, or a fragment that does not end the fetch, lets the waiting start anew. */
  lemma HearingIsPatience(n: Node, id: int, data: Frag, self: int, k: nat)
    requires n.fetch.Some? && k <= MAX_RETX
    ensures Waited(OnOtherRequest(n), self, k) == n.(fetch := Some(n.fetch.value.(retx := k)))
    ensures var n' := OnFragment(n, id, data);
            n'.fetch.Some? ==> Waited(n', self, k) == n'.(fetch := Some(n'.fetch.value.(retx := k)))
  {
    GivesUp(OnOtherRequest(n), self, k);
    var n' := OnFragment(n, id, data);
    if n'.fetch.Some? {
      GivesUp(n', self, k);
    }
  }

  // ---------------------------------------------------------------------------------------------
  // One node
  // ---------------------------------------------------------------------------------------------

  /** The node after the fragments with these numbers have arrived, in this order. */
  function Fed(n: Node, ids: seq<int>, image: seq<Frag>): Node
    requires forall i :: 0 <= i < |ids| ==> 0 <= ids[i] < |image|
    decreases |ids|
  {
    if ids == [] then n else Fed(OnFragment(n, ids[0], image[ids[0]]), ids[1..], image)
  }

  lemma {:induction false} FedIdle(n: Node, ids: seq<int>, image: seq<Frag>)
    requires n.fetch.None? && forall i :: 0 <= i < |ids| ==> 0 <= ids[i] < |image|
    ensures Fed(n, ids, image).fetch.None? && Fed(n, ids, image).reports == n.reports
    decreases |ids|
  {
    if ids != [] {
      FedIdle(OnFragment(n, ids[0], image[ids[0]]), ids[1..], image);
    }
  }

  /** The fetch of n has ended as n' with one more report, a success with the whole image. */
  ghost predicate Fetched(n: Node, n': Node, image: seq<Frag>) {
    && n'.fetch.None? && OneMoreReport(n, n') && Succeeded(LastReport(n')) && StoreIs(LastReport(n').store, image)
  }

  /**
    The fragments may come in any order and repeatedly: the fetch succeeds, with exactly the image, if and
    only if every missing one is among them; until then it goes on with what is still missing.  A fetch that
    misses nothing from the start never succeeds, as only a missing fragment makes the handler look.
   */
  lemma {:induction false} SucceedsIffAllArrive(n: Node, ids: seq<int>, image: seq<Frag>)
    requires NodeOk(n, image) && n.fetch.Some?
    requires forall i :: 0 <= i < |ids| ==> 0 <= ids[i] < |image|
    ensures var left, n' := Left(n.fetch.value.missing, ids), Fed(n, ids, image);
            if left == {} && n.fetch.value.missing != {} then Fetched(n, n', image)
            else n'.fetch.Some? && n'.fetch.value.missing == left && n'.reports == n.reports
    decreases |ids|
  {
    var missing := n.fetch.value.missing;
    LeftStep(missing, ids);
    if ids != [] {
      hide NodeOk, OnFragment, StoreIs;
      var id, rest := ids[0], ids[1..];
      var n1 := OnFragment(n, id, image[id]);
      FragmentKeepsNode(n, image, id);
      ArrivedOne(n, id, image);
      if n1.fetch.None? {
        FedIdle(n1, rest, image);
      } else {
        SucceedsIffAllArrive(n1, rest, image);
      }
    }
  }

  /** What is missing and not among the fragments that arrive. */
  ghost function Left(missing: set<int>, ids: seq<int>): set<int> { missing - set i | i in ids }

  lemma LeftStep(missing: set<int>, ids: seq<int>)
    ensures ids == [] ==> Left(missing, ids) == missing
    ensures ids != [] ==> Left(missing, ids) == Left(missing - {ids[0]}, ids[1..])
    ensures Left({}, ids) == {}
  {
  }

  /** One fragment arrives while the node is fetching. */
  lemma ArrivedOne(n: Node, id: int, image: seq<Frag>)
    requires NodeOk(n, image) && n.fetch.Some? && 0 <= id < |image|
    ensures var missing, n1 := n.fetch.value.missing - {id}, OnFragment(n, id, image[id]);
            if missing == {} && n.fetch.value.missing != {} then Fetched(n, n1, image)
            else n1.fetch.Some? && n1.fetch.value.missing == missing && n1.reports == n.reports
  {
    var missing := n.fetch.value.missing;
    if id in missing {
      FragmentProgress(n, id, image[id]);
      if missing == {id} {
        LastFragment(n, image, id);
      }
    } else {
      FragmentOverheard(n, id, image[id]);
      assert missing - {id} == missing;
    }
  }

  // ---------------------------------------------------------------------------------------------
  // The network
  // ---------------------------------------------------------------------------------------------

  lemma Prepend(net: Net, a: int, act: Action, nets: seq<Net>, events: seq<Event>, image: seq<Frag>)
    requires Guarded(net, a, act) && Run(nets, events, image) && nets[0] == Apply(net, a, act, |image|)
    ensures Run([net] + nets, [Event(a, act)] + events, image)
  {
    var nets1, events1 := [net] + nets, [Event(a, act)] + events;
    forall k | 0 <= k < |events1|
      ensures Guarded(nets1[k], events1[k].at, events1[k].act)
      ensures nets1[k + 1] == Apply(nets1[k], events1[k].at, events1[k].act, |image|)
    {
      if k > 0 {
        assert events1[k] == events[k - 1] && nets1[k] == nets[k - 1] && nets1[k + 1] == nets[k];
      }
    }
  }

  lemma {:induction false} LeastOf(s: set<int>) returns (m: int)
    requires s != {}
    ensures IsMin(s, m)
    decreases |s|
  {
    assert (forall x :: x !in s) ==> s == {};
    var x :| x in s;
    m := x;
    if s != {x} {
      var l := LeastOf(s - {x});
      assert s == {x} + (s - {x});
      m := if l < x then l else x;
    }
  }

  /** The run leads from net to a state in which the fetch of node a, from its state na on, has succeeded. */
  ghost predicate Completes(net: Net, nets: seq<Net>, events: seq<Event>, image: seq<Frag>, a: int, na: Node) {
    && Run(nets, events, image) && nets[0] == net
    && var last := nets[|nets| - 1].nodes; a in last && Fetched(na, last[a], image)
  }

  lemma CompletesEarlier(net: Net, b: int, act: Action, nets: seq<Net>, events: seq<Event>, image: seq<Frag>,
                         a: int, na: Node) returns (nets': seq<Net>, events': seq<Event>)
    requires Guarded(net, b, act) && Completes(Apply(net, b, act, |image|), nets, events, image, a, na)
    ensures Completes(net, nets', events', image, a, na)
  {
    Prepend(net, b, act, nets, events, image);
    nets', events' := [net] + nets, [Event(b, act)] + events;
    assert nets'[|nets|] == nets[|nets| - 1];
  }

  /** Node b offers all that a misses. */
  ghost predicate Served(net: Net, image: seq<Frag>, a: int, b: int, na: Node) {
    && NetOk(net, image) && a in net.nodes && b in net.nodes && a != b && net.nodes[a].reports == na.reports
    && Missing(net.nodes[a]) != {} && Missing(net.nodes[a]) <= Offered(net.nodes[b])
  }

  /** Node b sends its fragments one by one, and a takes them. */
  lemma {:induction false} Transfer(net: Net, image: seq<Frag>, a: int, b: int, na: Node)
    returns (nets: seq<Net>, events: seq<Event>)
    requires Served(net, image, a, b, na)
    ensures Completes(net, nets, events, image, a, na)
    decreases |Offered(net.nodes[b])|, net.nodes[b].queued
  {
    var nb := net.nodes[b];
    if nb.queued >= MAX_IN_QUEUE {
      var net1 := Apply(net, b, SendDone, |image|);
      StepKeepsNet(net, image, b, SendDone);
      nets, events := Transfer(net1, image, a, b, na);
      nets, events := CompletesEarlier(net, b, SendDone, nets, events, image, a, na);
    } else {
      var id, net1, net2 := OneFragment(net, image, a, b, na);
      var take := Deliver(Fragment(id, image[id]));
      if net2.nodes[a].fetch.None? {
        nets, events := [net2], [];
      } else {
        SmallerOffer(Offered(nb), id);
        nets, events := Transfer(net2, image, a, b, na);
      }
      nets, events := CompletesEarlier(net1, a, take, nets, events, image, a, na);
      nets, events := CompletesEarlier(net, b, TransmitTimer(id), nets, events, image, a, na);
    }
  }

  lemma SmallerOffer(s: set<int>, id: int)
    requires id in s
    ensures |s - {id}| < |s|
  {
  }

  /** One fragment is sent by b and taken by a. */
  lemma OneFragment(net: Net, image: seq<Frag>, a: int, b: int, na: Node) returns (id: int, net1: Net, net2: Net)
    requires Served(net, image, a, b, na) && net.nodes[b].queued < MAX_IN_QUEUE
    ensures id in Offered(net.nodes[b]) && 0 <= id < |image|
    ensures Guarded(net, b, TransmitTimer(id)) && net1 == Apply(net, b, TransmitTimer(id), |image|)
    ensures var take := Deliver(Fragment(id, image[id]));
            Guarded(net1, a, take) && net2 == Apply(net1, a, take, |image|)
    ensures a in net2.nodes && b in net2.nodes && Offered(net2.nodes[b]) == Offered(net.nodes[b]) - {id}
    ensures if net2.nodes[a].fetch.None? then Fetched(na, net2.nodes[a], image) else Served(net2, image, a, b, na)
  {
    var n, nb := net.nodes[a], net.nodes[b];
    id := LeastOf(Offered(nb));
    assert Holds(nb, image, id);
    net1 := Apply(net, b, TransmitTimer(id), |image|);
    StepKeepsNet(net, image, b, TransmitTimer(id));
    var take := Deliver(Fragment(id, image[id]));
    net2 := Apply(net1, a, take, |image|);
    StepKeepsNet(net1, image, a, take);
    FragmentOverheard(n, id, image[id]);
    if id in Missing(n) {
      FragmentProgress(n, id, image[id]);
      if Missing(n) == {id} {
        LastFragment(n, image, id);
      }
    }
  }

  /** Node b has the key and misses nothing that a misses. */
  ghost predicate CanServe(nb: Node, missing: set<int>) {
    nb.cam && MayServe(nb, missing) && Missing(nb) !! missing
  }

  /**
    From every correct state of the network, whatever is in flight: a fetch whose source can serve it, and
    that has a retransmission left, can be brought to its end.
   */
  lemma FetchCompletes(net: Net, image: seq<Frag>, a: int, b: int) returns (nets: seq<Net>, events: seq<Event>)
    requires NetOk(net, image) && a in net.nodes && b in net.nodes && a != b
    requires var na := net.nodes[a];
             na.fetch.Some? && na.fetch.value.missing != {} && na.fetch.value.retx < MAX_RETX && na.fetch.value.src == b
    requires CanServe(net.nodes[b], net.nodes[a].fetch.value.missing)
    ensures Completes(net, nets, events, image, a, net.nodes[a])
  {
    var na, nb := net.nodes[a], net.nodes[b];
    var missing := na.fetch.value.missing;
    var net1 := Apply(net, a, RequestTimer, |image|);
    TimeoutProgress(na, a);
    StepKeepsNet(net, image, a, RequestTimer);
    var ask := Deliver(Request(b, a, missing));
    var net2 := Apply(net1, b, ask, |image|);
    StepKeepsNet(net1, image, b, ask);
    forall f ensures f in Offered(net2.nodes[b]) <==> (f in Offered(nb) || f in missing) && f !in Missing(nb) {
      RequestProgress(nb, a, missing, f);
    }
    nets, events := Transfer(net2, image, a, b, na);
    nets, events := CompletesEarlier(net1, b, ask, nets, events, image, a, na);
    nets, events := CompletesEarlier(net, a, RequestTimer, nets, events, image, a, na);
  }

  /** From the start every other node can get the image from the origin. */
  lemma EveryNodeCanFetch(net: Net, image: seq<Frag>, origin: int, a: int) returns (nets: seq<Net>, events: seq<Event>)
    requires Initial(net, origin, image) && a in net.nodes && a != origin && image != []
    ensures Completes(net, nets, events, image, a, net.nodes[a])
  {
    forall x | x in net.nodes ensures NodeOk(net.nodes[x], image) {
    }
    var net1 := Apply(net, a, DoBegin(origin), |image|);
    StepKeepsNet(net, image, a, DoBegin(origin));
    assert 0 in net1.nodes[a].fetch.value.missing;
    nets, events := FetchCompletes(net1, image, a, origin);
    nets, events := CompletesEarlier(net, a, DoBegin(origin), nets, events, image, a, net.nodes[a]);
  }

  /** A fetch that has failed goes on where it was when it is restarted, and can be brought to its end. */
  lemma RestartCompletes(net: Net, image: seq<Frag>, a: int, b: int) returns (nets: seq<Net>, events: seq<Event>)
    requires NetOk(net, image) && a in net.nodes && b in net.nodes && a != b
    requires var na := net.nodes[a]; na.cam && na.fetch.None? && na.parked.Some? && na.parked.value.missing != {}
    requires CanServe(net.nodes[b], net.nodes[a].parked.value.missing)
    ensures Completes(net, nets, events, image, a, net.nodes[a])
  {
    var net1 := Apply(net, a, DoRestart(b), |image|);
    StepKeepsNet(net, image, a, DoRestart(b));
    nets, events := FetchCompletes(net1, image, a, b);
    nets, events := CompletesEarlier(net, a, DoRestart(b), nets, events, image, a, net.nodes[a]);
  }
}
