/**
  The fragment fetch protocol of kernel/sos_module_fetcher.c for one key of data type: what each message
  handler does to a node, and what every run of a network of nodes keeps.  A bitmap is the set of its
  bits here; module Fetcher implements the handlers on bytes.
 */
module FetchProtocol {
  import opened Common

  const MAX_RETX := 3
  const MAX_IN_QUEUE := 2

  type Frag = seq<bv8>

  /** fetcher_state_t: the fragments still missing, the retransmission count, and whom to ask. */
  datatype Fetch = Fetch(missing: set<int>, retx: int, src: int)
  /** send_state: the fragments still to be sent, and where to. */
  datatype Offer = Offer(wanted: set<int>, dest: int)
  /** MSG_FETCHER_DONE, with the code memory at that moment. */
  datatype Report = Report(state: Fetch, store: map<int, Frag>)

  datatype Node = Node(cam: bool, fetch: Option<Fetch>, parked: Option<Fetch>, offer: Option<Offer>,
                       store: map<int, Frag>, queued: int, reports: seq<Report>)

  datatype Msg = Fragment(id: int, data: Frag) | Request(dest: int, src: int, wanted: set<int>)

  predicate InImage(f: int, n: int) { 0 <= f < n }

  ghost function AllFragments(n: int): set<int> { set f | 0 <= f < n && InImage(f, n) }

  predicate Succeeded(r: Report) { r.state.retx <= MAX_RETX }

  // ---------------------------------------------------------------------------------------------
  // The handlers
  // ---------------------------------------------------------------------------------------------

  /** fetcher_request on an idle fetcher. */
  ghost function Begin(n: Node, frags: int, src: int): Node {
    n.(cam := true, fetch := Some(Fetch(AllFragments(frags), 0, src)), parked := None)
  }

  /** fetcher_restart of the fetch that last failed. */
  function Restart(n: Node, src: int): Node
    requires n.parked.Some?
  {
    n.(fetch := Some(n.parked.value.(retx := 0, src := src)), parked := None)
  }

  /** handle_overheard_fragment: somebody else has sent it. */
  function Suppress(n: Node, id: int): Node {
    if n.offer.None? then n else n.(offer := Some(n.offer.value.(wanted := n.offer.value.wanted - {id})))
  }

  /** check_map_and_post: report success when nothing is missing. */
  function CheckMap(n: Node): Node
    requires n.fetch.Some?
  {
    if n.fetch.value.missing == {} then
      var f := n.fetch.value.(retx := 0);
      n.(fetch := None, reports := n.reports + [Report(f, n.store)])
    else n
  }

  /** MSG_FETCHER_FRAGMENT. */
  function OnFragment(n: Node, id: int, data: Frag): Node {
    var n1 := Suppress(n, id);
    if n1.fetch.None? then n1 else
    var f := n1.fetch.value.(retx := 0);
    if !n1.cam || id !in f.missing then n1.(fetch := Some(f)) else
    CheckMap(n1.(fetch := Some(f.(missing := f.missing - {id})), store := n1.store[id := data]))
  }

  /** MSG_FETCHER_REQUEST addressed to another node. */
  function OnOtherRequest(n: Node): Node {
    if n.fetch.None? then n else n.(fetch := Some(n.fetch.value.(retx := 0)))
  }

  /** handle_request: take or merge the wanted list, then drop what is missing here. */
  function OnRequest(n: Node, src: int, wanted: set<int>): Node {
    if n.offer.None? && !n.cam then n else
    var o := if n.offer.None? then Offer(wanted, src)
             else n.offer.value.(wanted := n.offer.value.wanted + wanted);
    if n.fetch.None? then n.(offer := Some(o))
    else n.(offer := Some(o.(wanted := o.wanted - n.fetch.value.missing)))
  }

  /** handle_request_timeout: ask again, or give up and report failure. */
  function OnRequestTimeout(n: Node, self: int): (r: (Node, Option<Msg>)) {
    if n.fetch.None? then (n, None) else
    var f := n.fetch.value.(retx := n.fetch.value.retx + 1);
    if f.retx <= MAX_RETX then (n.(fetch := Some(f)), Some(Request(f.src, self, f.missing)))
    else (n.(fetch := None, parked := Some(f), reports := n.reports + [Report(f, n.store)]), None)
  }

  ghost predicate IsMin(s: set<int>, m: int) { m in s && forall x :: x in s ==> m <= x }

  /** The transmit timer will find a fragment to send. */
  predicate WillSend(n: Node) {
    n.queued < MAX_IN_QUEUE && n.cam && n.offer.Some? && n.offer.value.wanted != {}
  }

  /** send_fragment for the lowest wanted fragment id; an empty list or a missing CAM ends the offer. */
  function OnTransmitTimeout(n: Node, id: int): (r: (Node, Option<Msg>))
    requires WillSend(n) ==> id in n.store
  {
    if n.queued >= MAX_IN_QUEUE || n.offer.None? then (n, None) else
    if !n.cam || n.offer.value.wanted == {} then (n.(offer := None), None) else
    var left := n.offer.value.wanted - {id};
    (n.(offer := if left == {} then None else Some(n.offer.value.(wanted := left)), queued := n.queued + 1),
     Some(Fragment(id, n.store[id])))
  }

  /** MSG_PKT_SENDDONE. */
  function OnSendDone(n: Node): Node { if n.queued > 0 then n.(queued := n.queued - 1) else n }

  // ---------------------------------------------------------------------------------------------
  // The network
  // ---------------------------------------------------------------------------------------------

  /** Messages stay in flight: they may be lost, arrive late, repeatedly, and in any order. */
  datatype Net = Net(nodes: map<int, Node>, flight: set<Msg>)

  datatype Action =
    | DoBegin(src: int)
    | DoRestart(src: int)
    | Deliver(msg: Msg)
    | RequestTimer
    | TransmitTimer(id: int)
    | SendDone

  ghost function Send(net: Net, a: int, r: (Node, Option<Msg>)): Net {
    Net(net.nodes[a := r.0], if r.1.Some? then net.flight + {r.1.value} else net.flight)
  }

  /** Whether node a may take the action; a transmit timer names the fragment that send_fragment finds. */
  ghost predicate Enabled(net: Net, a: int, act: Action) {
    a in net.nodes &&
    var n := net.nodes[a];
    match act
    case DoBegin(_) => !n.cam && n.fetch.None?
    case DoRestart(_) => n.cam && n.fetch.None? && n.parked.Some?
    case Deliver(msg) => msg in net.flight
    case RequestTimer => true
    case TransmitTimer(id) => WillSend(n) ==> IsMin(n.offer.value.wanted, id) && id in n.store
    case SendDone => true
  }

  ghost function Apply(net: Net, a: int, act: Action, frags: int): Net
    requires Enabled(net, a, act)
  {
    var n := net.nodes[a];
    match act
    case DoBegin(src) => Send(net, a, (Begin(n, frags, src), None))
    case DoRestart(src) => Send(net, a, (Restart(n, src), None))
    case Deliver(Fragment(id, data)) => Send(net, a, (OnFragment(n, id, data), None))
    case Deliver(Request(dest, src, wanted)) =>
      Send(net, a, (if dest == a then OnRequest(n, src, wanted) else OnOtherRequest(n), None))
    case RequestTimer => Send(net, a, OnRequestTimeout(n, a))
    case TransmitTimer(id) => Send(net, a, OnTransmitTimeout(n, id))
    case SendDone => Send(net, a, (OnSendDone(n), None))
  }

  // ---------------------------------------------------------------------------------------------
  // Safety
  // ---------------------------------------------------------------------------------------------

  ghost predicate Holds(n: Node, image: seq<Frag>, f: int) {
    0 <= f < |image| && f in n.store && n.store[f] == image[f]
  }

  ghost predicate Complete(n: Node, image: seq<Frag>) {
    forall f :: 0 <= f < |image| ==> Holds(n, image, f)
  }

  /** What is not missing is held. */
  ghost predicate FetchOk(n: Node, image: seq<Frag>, f: Fetch) {
    && f.missing <= AllFragments(|image|)
    && forall x :: 0 <= x < |image| && x !in f.missing ==> Holds(n, image, x)
  }

  ghost predicate StoreIs(store: map<int, Frag>, image: seq<Frag>) {
    forall x :: 0 <= x < |image| ==> x in store && store[x] == image[x]
  }

  ghost predicate NodeOk(n: Node, image: seq<Frag>) {
    && (n.fetch.Some? ==> n.cam && FetchOk(n, image, n.fetch.value) && n.fetch.value.retx <= MAX_RETX)
    && (n.parked.Some? ==> FetchOk(n, image, n.parked.value))
    && (n.offer.Some? ==> n.cam && forall f :: f in n.offer.value.wanted ==> Holds(n, image, f))
    && (n.cam && n.fetch.None? && n.parked.None? ==> Complete(n, image))
    && (forall r :: r in n.reports && Succeeded(r) ==> StoreIs(r.store, image))
  }

  ghost predicate MsgOk(m: Msg, image: seq<Frag>) {
    match m
    case Fragment(id, data) => 0 <= id < |image| && data == image[id]
    case Request(_, _, wanted) => wanted <= AllFragments(|image|)
  }

  ghost predicate NetOk(net: Net, image: seq<Frag>) {
    && (forall a :: a in net.nodes ==> NodeOk(net.nodes[a], image))
    && (forall m :: m in net.flight ==> MsgOk(m, image))
  }

  /** What the node offers already. */
  function Offered(n: Node): set<int> { if n.offer.Some? then n.offer.value.wanted else {} }

  /** The node is not between the failure of a fetch and its restart, or the request asks for nothing it then lacks. */
  predicate MayServe(n: Node, wanted: set<int>) {
    n.cam && n.fetch.None? && n.parked.Some? ==> wanted - Offered(n) !! n.parked.value.missing
  }

  /** A request reaches its addressee only while that node may serve it. */
  ghost predicate Guarded(net: Net, a: int, act: Action) {
    Enabled(net, a, act) &&
    (act.Deliver? && act.msg.Request? && act.msg.dest == a ==> MayServe(net.nodes[a], act.msg.wanted))
  }

  lemma FragmentKeepsNode(n: Node, image: seq<Frag>, id: int)
    requires NodeOk(n, image) && 0 <= id < |image|
    ensures NodeOk(OnFragment(n, id, image[id]), image)
  {
    var n' := OnFragment(n, id, image[id]);
    assert forall f :: Holds(n, image, f) ==> Holds(n', image, f);
    if n.fetch.Some? && n'.fetch.None? {
      LastFragment(n, image, id);
    }
    forall r | r in n'.reports && Succeeded(r) ensures StoreIs(r.store, image) {
      if r !in n.reports {
        assert n.fetch.value.missing - {id} == {} && r.store == n'.store;
        LastFragment(n, image, id);
      }
    }
  }

  /** If id is all that is missing, everything else is held. */
  lemma LastFragment(n: Node, image: seq<Frag>, id: int)
    requires n.fetch.Some? && FetchOk(n, image, n.fetch.value) && n.fetch.value.missing - {id} == {}
    ensures 0 <= id < |image| ==> StoreIs(n.store[id := image[id]], image)
  {
    forall x | 0 <= x < |image| && x != id ensures x in n.store && n.store[x] == image[x] {
      assert x !in n.fetch.value.missing - {id};
      assert Holds(n, image, x);
    }
  }

  lemma RequestKeepsNode(n: Node, image: seq<Frag>, src: int, wanted: set<int>)
    requires NodeOk(n, image) && MayServe(n, wanted) && wanted <= AllFragments(|image|)
    ensures NodeOk(OnRequest(n, src, wanted), image)
  {
    var n' := OnRequest(n, src, wanted);
    assert forall f :: Holds(n, image, f) <==> Holds(n', image, f);
    if n.cam && n.fetch.None? && n.parked.Some? {
      forall f | f in n'.offer.value.wanted
        ensures Holds(n, image, f)
      {
        assert f in Offered(n) || f in wanted - Offered(n);
      }
    }
  }

  /** The node with another content of its code memory is still correct. */
  ghost predicate StoreFits(n: Node, image: seq<Frag>, store: map<int, Frag>) { NodeOk(n.(store := store), image) }

  /** Whatever a correct node has in its code memory, it stays correct when it takes the request. */
  ghost predicate AlwaysServes(n: Node, image: seq<Frag>, src: int, wanted: set<int>) {
    forall store {:trigger StoreFits(n, image, store)} ::
      StoreFits(n, image, store) ==> NodeOk(OnRequest(n.(store := store), src, wanted), image)
  }

  /** The condition of MayServe is exact: without it, some content of the code memory makes the offer wrong. */
  lemma RequestIsSafeIff(n: Node, image: seq<Frag>, src: int, wanted: set<int>)
    requires NodeOk(n, image) && wanted <= AllFragments(|image|)
    ensures AlwaysServes(n, image, src, wanted) <==> MayServe(n, wanted)
  {
    if MayServe(n, wanted) {
      forall store {:trigger StoreFits(n, image, store)} | StoreFits(n, image, store)
        ensures NodeOk(OnRequest(n.(store := store), src, wanted), image)
      {
        RequestKeepsNode(n.(store := store), image, src, wanted);
      }
    } else {
      var f :| f in wanted - Offered(n) && f in n.parked.value.missing;
      WrongFragmentFits(n, image, f);
      var n' := OnRequest(n.(store := n.store[f := image[f] + [0]]), src, wanted);
      assert f in n'.offer.value.wanted && !Holds(n', image, f);
    }
  }

  lemma WrongFragmentFits(n: Node, image: seq<Frag>, f: int)
    requires NodeOk(n, image) && n.fetch.None? && n.parked.Some? && f in n.parked.value.missing && f !in Offered(n)
    ensures 0 <= f < |image| && StoreFits(n, image, n.store[f := image[f] + [0]])
  {
    var n' := n.(store := n.store[f := image[f] + [0]]);
    assert forall x :: x != f ==> (Holds(n, image, x) <==> Holds(n', image, x));
  }

  lemma TimersKeepNode(n: Node, image: seq<Frag>, self: int, id: int, src: int)
    requires NodeOk(n, image)
    ensures NodeOk(OnRequestTimeout(n, self).0, image)
    ensures OnRequestTimeout(n, self).1.Some? ==> MsgOk(OnRequestTimeout(n, self).1.value, image)
    ensures NodeOk(OnOtherRequest(n), image) && NodeOk(OnSendDone(n), image)
    ensures !n.cam ==> NodeOk(Begin(n, |image|, src), image)
    ensures n.cam && n.parked.Some? ==> NodeOk(Restart(n, src), image)
  {
    var n1 := OnRequestTimeout(n, self).0;
    assert forall f :: Holds(n, image, f) <==> Holds(n1, image, f);
    var n2 := OnOtherRequest(n);
    assert forall f :: Holds(n, image, f) <==> Holds(n2, image, f);
    var n3 := OnSendDone(n);
    assert forall f :: Holds(n, image, f) <==> Holds(n3, image, f);
    if n.cam && n.parked.Some? {
      var n4 := Restart(n, src);
      assert forall f :: Holds(n, image, f) <==> Holds(n4, image, f);
    }
  }

  lemma TransmitKeepsNode(n: Node, image: seq<Frag>, id: int)
    requires NodeOk(n, image)
    requires WillSend(n) ==> id in n.offer.value.wanted && id in n.store
    ensures NodeOk(OnTransmitTimeout(n, id).0, image)
    ensures OnTransmitTimeout(n, id).1.Some? ==> MsgOk(OnTransmitTimeout(n, id).1.value, image)
  {
    var n' := OnTransmitTimeout(n, id).0;
    assert forall f :: Holds(n, image, f) <==> Holds(n', image, f);
    if WillSend(n) {
      assert Holds(n, image, id);
    }
  }

  /** Every guarded step of the network keeps all nodes and all messages correct. */
  lemma StepKeepsNet(net: Net, image: seq<Frag>, a: int, act: Action)
    requires NetOk(net, image) && Guarded(net, a, act)
    ensures NetOk(Apply(net, a, act, |image|), image)
  {
    var n := net.nodes[a];
    match act
    case DoBegin(src) => TimersKeepNode(n, image, a, 0, src);
    case DoRestart(src) => TimersKeepNode(n, image, a, 0, src);
    case Deliver(Fragment(id, data)) =>
      assert MsgOk(act.msg, image);
      FragmentKeepsNode(n, image, id);
    case Deliver(Request(dest, src, wanted)) =>
      assert MsgOk(act.msg, image);
      if dest == a {
        RequestKeepsNode(n, image, src, wanted);
      } else {
        TimersKeepNode(n, image, a, 0, src);
      }
    case RequestTimer => TimersKeepNode(n, image, a, 0, 0);
    case TransmitTimer(id) => TransmitKeepsNode(n, image, id);
    case SendDone => TimersKeepNode(n, image, a, 0, 0);
  }

  /** The network with another content of the code memory of node a. */
  function WithStore(net: Net, a: int, store: map<int, Frag>): Net
    requires a in net.nodes
  {
    net.(nodes := net.nodes[a := net.nodes[a].(store := store)])
  }

  ghost predicate NetFits(net: Net, image: seq<Frag>, a: int, store: map<int, Frag>)
    requires a in net.nodes
  {
    NetOk(WithStore(net, a, store), image)
  }

  /** Whatever node a has in its code memory while the network is correct, its step keeps the network correct. */
  ghost predicate AlwaysKeeps(net: Net, image: seq<Frag>, a: int, act: Action)
    requires a in net.nodes
  {
    forall store {:trigger NetFits(net, image, a, store)} :: NetFits(net, image, a, store) ==>
      Enabled(WithStore(net, a, store), a, act) && NetOk(Apply(WithStore(net, a, store), a, act, |image|), image)
  }

  /** The guard is exact: a step is safe for every content of the code memory if and only if it is guarded. */
  lemma StepIsSafeIff(net: Net, image: seq<Frag>, a: int, act: Action)
    requires NetOk(net, image) && Enabled(net, a, act)
    ensures AlwaysKeeps(net, image, a, act) <==> Guarded(net, a, act)
  {
    if Guarded(net, a, act) {
      forall store {:trigger NetFits(net, image, a, store)} | NetFits(net, image, a, store)
        ensures Enabled(WithStore(net, a, store), a, act)
                && NetOk(Apply(WithStore(net, a, store), a, act, |image|), image)
      {
        OtherStoreEnabled(net, image, a, act, store);
        StepKeepsNet(WithStore(net, a, store), image, a, act);
      }
    } else {
      UnguardedStepFails(net, image, a, act);
    }
  }

  lemma OtherStoreEnabled(net: Net, image: seq<Frag>, a: int, act: Action, store: map<int, Frag>)
    requires Guarded(net, a, act) && NetFits(net, image, a, store)
    ensures Guarded(WithStore(net, a, store), a, act)
  {
    var n := net.nodes[a].(store := store);
    assert NodeOk(WithStore(net, a, store).nodes[a], image);
    if act.TransmitTimer? && WillSend(n) {
      assert Holds(n, image, act.id);
    }
  }

  lemma UnguardedStepFails(net: Net, image: seq<Frag>, a: int, act: Action)
    requires NetOk(net, image) && Enabled(net, a, act) && !Guarded(net, a, act)
    ensures !AlwaysKeeps(net, image, a, act)
  {
    var n := net.nodes[a];
    assert MsgOk(act.msg, image);
    RequestIsSafeIff(n, image, act.msg.src, act.msg.wanted);
    var store :| StoreFits(n, image, store)
      && !NodeOk(OnRequest(n.(store := store), act.msg.src, act.msg.wanted), image);
    var net1 := WithStore(net, a, store);
    assert forall x :: x in net1.nodes && x != a ==> net1.nodes[x] == net.nodes[x];
    assert NetFits(net, image, a, store);
    assert Apply(net1, a, act, |image|).nodes[a] == OnRequest(n.(store := store), act.msg.src, act.msg.wanted);
  }

  datatype Event = Event(at: int, act: Action)

  /** A run: each state follows from the one before by a guarded step. */
  ghost predicate Run(nets: seq<Net>, events: seq<Event>, image: seq<Frag>) {
    && |nets| == |events| + 1
    && forall k :: 0 <= k < |events| ==>
         Guarded(nets[k], events[k].at, events[k].act)
         && nets[k + 1] == Apply(nets[k], events[k].at, events[k].act, |image|)
  }

  /** The start: one origin with the whole image, nobody else knows the key, nothing in flight. */
  ghost predicate Initial(net: Net, origin: int, image: seq<Frag>) {
    && net.flight == {} && origin in net.nodes && Complete(net.nodes[origin], image) && net.nodes[origin].cam
    && forall a :: a in net.nodes ==>
         var n := net.nodes[a];
         n.fetch.None? && n.parked.None? && n.offer.None? && n.reports == [] && n.queued == 0
           && (a != origin ==> !n.cam)
  }

  lemma {:induction false} RunKeepsNet(nets: seq<Net>, events: seq<Event>, image: seq<Frag>, origin: int, k: int)
    requires Run(nets, events, image) && Initial(nets[0], origin, image) && 0 <= k < |nets|
    ensures NetOk(nets[k], image)
    decreases k
  {
    if k > 0 {
      RunKeepsNet(nets, events, image, origin, k - 1);
      StepKeepsNet(nets[k - 1], image, events[k - 1].at, events[k - 1].act);
    }
  }

  /**
    Network-wide safety.  In every state of every run, a fragment in flight is the origin's fragment, a
    node that offers a fragment has the origin's fragment, what a fetching node no longer misses is the
    origin's, and a fetch reported as successful holds exactly the image.
   */
  lemma FetchSafety(nets: seq<Net>, events: seq<Event>, image: seq<Frag>, origin: int, k: int)
    requires Run(nets, events, image) && Initial(nets[0], origin, image) && 0 <= k < |nets|
    ensures forall id, data :: Fragment(id, data) in nets[k].flight ==> 0 <= id < |image| && data == image[id]
    ensures forall a :: a in nets[k].nodes && nets[k].nodes[a].offer.Some? ==>
              forall f :: f in nets[k].nodes[a].offer.value.wanted ==> Holds(nets[k].nodes[a], image, f)
    ensures forall a :: a in nets[k].nodes && nets[k].nodes[a].fetch.Some? ==>
              forall f :: 0 <= f < |image| && f !in nets[k].nodes[a].fetch.value.missing ==>
                Holds(nets[k].nodes[a], image, f)
    ensures forall a, r :: a in nets[k].nodes && r in nets[k].nodes[a].reports && Succeeded(r) ==>
              StoreIs(r.store, image)
  {
    RunKeepsNet(nets, events, image, origin, k);
    forall id, data | Fragment(id, data) in nets[k].flight ensures 0 <= id < |image| && data == image[id] {
      assert MsgOk(Fragment(id, data), image);
    }
    forall a | a in nets[k].nodes ensures NodeOk(nets[k].nodes[a], image) {
    }
  }

  // ---------------------------------------------------------------------------------------------
  // A run that breaks the guard
  // ---------------------------------------------------------------------------------------------

  /** A run in which requests may also arrive between a failure and the restart. */
  ghost predicate UnguardedRun(nets: seq<Net>, events: seq<Event>, image: seq<Frag>) {
    && |nets| == |events| + 1
    && forall k :: 0 <= k < |events| ==>
         Enabled(nets[k], events[k].at, events[k].act)
         && nets[k + 1] == Apply(nets[k], events[k].at, events[k].act, |image|)
  }

  /** A node that knows nothing, with something else in its code memory. */
  function Stranger(): Node { Node(false, None, None, None, map[0 := [0]], 0, []) }

  function Origin(): Node { Node(true, None, None, None, map[0 := [1]], 0, []) }

  /** A node that has asked node src for the only fragment retx times. */
  function Asking(retx: int, src: int): Node { Stranger().(cam := true, fetch := Some(Fetch({0}, retx, src))) }

  /** Node 1 after its fetch has failed. */
  function Failed(): Node {
    Stranger().(cam := true, parked := Some(Fetch({0}, 4, 0)), reports := [Report(Fetch({0}, 4, 0), map[0 := [0]])])
  }

  function Three(b: Node, c: Node, flight: set<Msg>): Net { Net(map[0 := Origin(), 1 := b, 2 := c], flight) }

  /**
    Nodes 1 and 2 begin to fetch, 2 from 1; node 2 asks; node 1 gives up after four timeouts; the request
    arrives; and node 1 answers with the wrong fragment from its code memory.
   */
  function GarbageEvents(): seq<Event> {
    [Event(1, DoBegin(0)), Event(2, DoBegin(1)), Event(2, RequestTimer),
     Event(1, RequestTimer), Event(1, RequestTimer), Event(1, RequestTimer), Event(1, RequestTimer),
     Event(1, Deliver(Request(1, 2, {0}))), Event(1, TransmitTimer(0))]
  }

  function GarbageNets(): seq<Net> {
    var ask, asked, c := Request(1, 2, {0}), Request(0, 1, {0}), Asking(1, 1);
    [Three(Stranger(), Stranger(), {}), Three(Asking(0, 0), Stranger(), {}), Three(Asking(0, 0), Asking(0, 1), {}),
     Three(Asking(0, 0), c, {ask}), Three(Asking(1, 0), c, {ask, asked}), Three(Asking(2, 0), c, {ask, asked}),
     Three(Asking(3, 0), c, {ask, asked}), Three(Failed(), c, {ask, asked}),
     Three(Failed().(offer := Some(Offer({0}, 2))), c, {ask, asked}),
     Three(Failed().(queued := 1), c, {ask, asked, Fragment(0, [0])})]
  }

  /** Without the guard a wrong fragment gets on the air: a run from the start that ends with one in flight. */
  lemma UnguardedServesGarbage()
    ensures Initial(GarbageNets()[0], 0, [[1]]) && UnguardedRun(GarbageNets(), GarbageEvents(), [[1]])
    ensures Fragment(0, [0]) in GarbageNets()[9].flight && !MsgOk(Fragment(0, [0]), [[1]])
    ensures !Guarded(GarbageNets()[7], 1, GarbageEvents()[7].act)
  {
    GarbageStart();
    forall k | 0 <= k < 9
      ensures Enabled(GarbageNets()[k], GarbageEvents()[k].at, GarbageEvents()[k].act)
      ensures GarbageNets()[k + 1] == Apply(GarbageNets()[k], GarbageEvents()[k].at, GarbageEvents()[k].act, 1)
    {
      if k < 3 {
        GarbageBegins(k);
      } else if k < 7 {
        GarbageAsks(k);
      } else {
        GarbageServes(k);
      }
    }
  }

  lemma GarbageStart()
    ensures Initial(GarbageNets()[0], 0, [[1]])
  {
    assert Holds(Origin(), [[1]], 0);
  }

  lemma GarbageBegins(k: int)
    requires 0 <= k < 3
    ensures var e := GarbageEvents()[k];
            Enabled(GarbageNets()[k], e.at, e.act) && GarbageNets()[k + 1] == Apply(GarbageNets()[k], e.at, e.act, 1)
  {
    assert AllFragments(1) == {0} by {
      assert InImage(0, 1);
    }
  }

  lemma GarbageAsks(k: int)
    requires 3 <= k < 7
    ensures var e := GarbageEvents()[k];
            Enabled(GarbageNets()[k], e.at, e.act) && GarbageNets()[k + 1] == Apply(GarbageNets()[k], e.at, e.act, 1)
  {
    var ask, asked := Request(1, 2, {0}), Request(0, 1, {0});
    AskAgain(k - 3, Asking(1, 1), if k == 3 then {ask} else {ask, asked});
    assert {ask} + {asked} == {ask, asked} && {ask, asked} + {asked} == {ask, asked};
  }

  lemma AskAgain(retx: int, c: Node, flight: set<Msg>)
    ensures Apply(Three(Asking(retx, 0), c, flight), 1, RequestTimer, 1) ==
            if retx < 3 then Three(Asking(retx + 1, 0), c, flight + {Request(0, 1, {0})})
            else Three(Stranger().(cam := true, parked := Some(Fetch({0}, retx + 1, 0)),
                                   reports := [Report(Fetch({0}, retx + 1, 0), map[0 := [0]])]), c, flight)
  {
    var r := OnRequestTimeout(Asking(retx, 0), 1);
    assert [] + [Report(Fetch({0}, retx + 1, 0), map[0 := [0]])] == [Report(Fetch({0}, retx + 1, 0), map[0 := [0]])];
    NodeOneTakes(Asking(retx, 0), r.0, c, flight);
  }

  lemma NodeOneTakes(b: Node, b': Node, c: Node, flight: set<Msg>)
    ensures Three(b, c, flight).nodes[1 := b'] == Three(b', c, flight).nodes
  {
  }

  lemma GarbageServes(k: int)
    requires 7 <= k < 9
    ensures var e := GarbageEvents()[k];
            Enabled(GarbageNets()[k], e.at, e.act) && GarbageNets()[k + 1] == Apply(GarbageNets()[k], e.at, e.act, 1)
  {
    var left: set<int> := {0} - {0};
    assert left == {};
  }
}
