/**
  The token side of extensions/dataflow/wiring_engine.c: busy bits and token queues.  Each method is
  one step of TokenSpec for one element; a call into an element lies between two methods.
 */
module Dataflow {
  import opened Bits
  import opened TokenSpec

  /** MAX_NUM_ELEMENTS. */
  const ELEMENTS := 16

  /** m << p. */
  function ShlBy(m: bv8, p: int): bv8 {
    if p == 0 then m else if p == 1 then m << 1 else if p == 2 then m << 2 else if p == 3 then m << 3
    else if p == 4 then m << 4 else if p == 5 then m << 5 else if p == 6 then m << 6 else m << 7
  }

  /** The ports whose bit is set; port p has the bit 0x80 >> p. */
  function ReadyPorts(m: bv8): set<int> { set p | p in AllPorts() && Test(m, 7 - p) }

  lemma ReadyBit(m: bv8, p: int)
    requires 0 <= p < 8
    ensures ShlBy(m, p) & 0x80 != 0 <==> Test(m, 7 - p)
  {
  }

  lemma BusyBit(m: bv8, p: int)
    requires 0 <= p < 8
    ensures ReadyPorts(m & !Mask(7 - p)) == ReadyPorts(m) - {p}
  {
    hide Test, Mask;
    forall x | x in AllPorts()
      ensures Test(m & !Mask(7 - p), 7 - x) <==> x != p && Test(m, 7 - x)
    {
      TestClear(m, 7 - p, 7 - x);
    }
  }

  lemma AllReady()
    ensures ReadyPorts(0xff) == AllPorts()
  {
  }

  class Engine {
    /** busy_bit_mask, one byte for each element. */
    const mask: array<bv8>
    /** mqueue: the token queues of the elements that have one. */
    var queues: map<int, seq<Tok>>
    ghost var arrived: seq<seq<Item>>
    ghost var delivered: seq<seq<Item>>

    ghost predicate Sized()
      reads this
    {
      mask.Length == |arrived| == |delivered| == ELEMENTS
    }

    function Tokens(e: int): seq<Tok>
      reads this
    {
      if e in queues then queues[e] else []
    }

    ghost function View(e: int): Elem
      requires Sized() && 0 <= e < ELEMENTS
      reads this, mask
    {
      Elem(ReadyPorts(mask[e]), Tokens(e), arrived[e], delivered[e])
    }

    ghost predicate Valid()
      reads this, mask
    {
      Sized() && forall e {:trigger View(e)} :: 0 <= e < ELEMENTS ==> ElemOk(View(e))
    }

    /** Only element e has made a step. */
    twostate predicate Stepped(e: int, a: Action)
      requires old(Sized()) && 0 <= e < ELEMENTS
      reads this, mask
    {
      && Sized() && Enabled(old(View(e)), a) && View(e) == Step(old(View(e)), a)
      && forall x {:trigger View(x)} :: 0 <= x < ELEMENTS && x != e ==> View(x) == old(View(x))
    }

    /** reset_busy_mask and reset_mesg_queue. */
    constructor ()
      ensures Valid() && fresh(mask)
      ensures forall e :: 0 <= e < ELEMENTS ==> View(e) == Elem(AllPorts(), [], [], [])
    {
      mask := new bv8[ELEMENTS](_ => 0xff);
      queues := map[];
      arrived, delivered := seq(ELEMENTS, _ => []), seq(ELEMENTS, _ => []);
      new;
      AllReady();
      FreshElem();
    }

    /** is_element_ready. */
    method IsElementReady(pidPort: int) returns (ready: bool)
      requires mask.Length == ELEMENTS && 0 <= pidPort < 8 * ELEMENTS
      ensures ready <==> pidPort % 8 in ReadyPorts(mask[pidPort / 8])
    {
      var e, port := pidPort / 8, pidPort % 8;
      ReadyBit(mask[e], port);
      ready := ShlBy(mask[e], port) & 0x80 != 0;
    }

    /** tokens_posted_for_element. */
    method TokensPosted(e: int) returns (posted: bool)
      ensures posted <==> HasPosted(Tokens(e))
    {
      var q := Tokens(e);
      var i := 0;
      while i < |q|
        invariant 0 <= i <= |q| && forall j :: 0 <= j < i ==> q[j].status != Posted
      {
        if q[i].status == Posted {
          return true;
        }
        i := i + 1;
      }
      return false;
    }

    /** The body of the loop of dispatch for one entry; call: the element is to be called with the token. */
    method VisitPort(pidPort: int, data: int, id: int) returns (call: bool)
      requires Valid() && 0 <= pidPort < 8 * ELEMENTS
      requires forall i :: 0 <= i < |Tokens(pidPort / 8)| ==> Tokens(pidPort / 8)[i].id != id
      modifies this
      ensures Valid() && Stepped(pidPort / 8, Arrive(pidPort % 8, data, id))
      ensures call <==> pidPort % 8 in old(View(pidPort / 8)).ready
    {
      hide ReadyPorts, ElemOk;
      var e, port := pidPort / 8, pidPort % 8;
      StepKeepsElem(View(e), Arrive(port, data, id));
      call := IsElementReady(pidPort);
      arrived := arrived[e := arrived[e] + [Item(port, data)]];
      if call {
        delivered := delivered[e := delivered[e] + [Item(port, data)]];
      } else {
        queues := queues[e := Tokens(e) + [Tok(id, port, data, Queued)]];
      }
      forall x {:trigger View(x)} | 0 <= x < ELEMENTS
        ensures ElemOk(View(x))
      {
        assert x != e ==> View(x) == old(View(x));
      }
    }

    /** A call has returned -EBUSY: set_element_status(epid, port, ELEMENT_BUSY). */
    method SetBusy(e: int, port: int)
      requires Valid() && 0 <= e < ELEMENTS && 0 <= port < PORTS
      modifies mask
      ensures Valid() && Stepped(e, Action.Busy(port))
    {
      hide ReadyPorts, ElemOk;
      StepKeepsElem(View(e), Action.Busy(port));
      BusyBit(mask[e], port);
      mask[e] := mask[e] & !Mask(7 - port);
      forall x {:trigger View(x)} | 0 <= x < ELEMENTS
        ensures ElemOk(View(x))
      {
        assert x != e ==> View(x) == old(View(x));
      }
    }

    /** The end of dispatch for its caller: all ports become ready unless a token is posted; then posting. */
    method SetElementReady(pid: int)
      requires Valid() && 0 <= pid < 256
      modifies this`queues, mask
      ensures Valid() && Stepped(pid % ELEMENTS, SetReady)
    {
      hide ReadyPorts, ElemOk, PostAll, HasPosted;
      var e := pid % ELEMENTS;
      StepKeepsElem(View(e), SetReady);
      PortsOk(View(e));
      var posted := TokensPosted(e);
      if !posted {
        mask[e] := 0xff;
        AllReady();
        PostTokens(e);
      }
      forall x {:trigger View(x)} | 0 <= x < ELEMENTS
        ensures ElemOk(View(x))
      {
        assert x != e ==> View(x) == old(View(x));
      }
    }

    /** post_tokens_for_all_ports. */
    method PostTokens(e: int)
      requires Sized() && 0 <= e < ELEMENTS
      requires ValidPorts(Tokens(e))
      modifies this`queues, mask
      ensures (Tokens(e), ReadyPorts(mask[e])) == old(PostAll(Tokens(e), ReadyPorts(mask[e])))
      ensures forall x :: 0 <= x < ELEMENTS && x != e ==> mask[x] == old(mask[x]) && Tokens(x) == old(Tokens(x))
    {
      hide ReadyPorts, PostAll, PostedTo, Mask;
      if e !in queues {
        PostEnds([], ReadyPorts(mask[e]), [], ReadyPorts(mask[e]));
        return;
      }
      ghost var q0, r0, queues0 := queues[e], ReadyPorts(mask[e]), queues;
      var q, i := queues[e], 0;
      assert ValidPorts(q0);
      PostEnds(q0, r0, q, r0);
      while i < |q|
        invariant 0 <= i <= |q| == |q0| && PostedTo(q0, r0, i, q, ReadyPorts(mask[e])) && queues == queues0
        invariant forall x :: 0 <= x < ELEMENTS && x != e ==> mask[x] == old(mask[x])
      {
        PostStep(q0, r0, i, q, ReadyPorts(mask[e]));
        var t := q[i];
        PortByte(e, t.port);
        var ready := IsElementReady(8 * e + t.port % 8);
        if ready && t.status == Queued {
          BusyBit(mask[e], t.port);
          mask[e] := mask[e] & !Mask(7 - t.port);
          q := q[i := t.(status := Posted)];
        }
        i := i + 1;
      }
      PostEnds(q0, r0, q, ReadyPorts(mask[e]));
      queues := queues[e := q];
    }

    /** MSG_CONTINUE_TASK for a posted token, up to the call. */
    method BeginTask(e: int, id: int) returns (data: int)
      requires Valid() && 0 <= e < ELEMENTS && Enabled(View(e), Begin(id))
      modifies this`queues, this`delivered
      ensures Valid() && Stepped(e, Begin(id)) && data == old(Tokens(e)[Position(Tokens(e), id)]).data
    {
      hide ReadyPorts, ElemOk, Position;
      StepKeepsElem(View(e), Begin(id));
      var i := Index(Tokens(e), id);
      var t := Tokens(e)[i];
      delivered := delivered[e := delivered[e] + [Item(t.port, t.data)]];
      queues := queues[e := Tokens(e)[i := t.(status := Handled)]];
      forall x {:trigger View(x)} | 0 <= x < ELEMENTS
        ensures ElemOk(View(x))
      {
        assert x != e ==> View(x) == old(View(x));
      }
      return t.data;
    }

    /** MSG_CONTINUE_TASK after the call: token_queue_remove. */
    method FinishTask(e: int, id: int)
      requires Valid() && 0 <= e < ELEMENTS && Enabled(View(e), Finish(id))
      modifies this`queues
      ensures Valid() && Stepped(e, Finish(id))
    {
      hide ReadyPorts, ElemOk, Position;
      StepKeepsElem(View(e), Finish(id));
      var i := Index(Tokens(e), id);
      var q := Tokens(e)[..i] + Tokens(e)[i + 1..];
      if q == [] {
        queues := queues - {e};
      } else {
        queues := queues[e := q];
      }
      forall x {:trigger View(x)} | 0 <= x < ELEMENTS
        ensures ElemOk(View(x))
      {
        assert x != e ==> View(x) == old(View(x));
      }
    }
  }

  lemma PortsOk(e: Elem)
    requires ElemOk(e)
    ensures ValidPorts(e.queue)
  {
  }

  ghost predicate ValidPorts(q: seq<Tok>) { forall i :: 0 <= i < |q| ==> 0 <= q[i].port < PORTS }

  lemma FreshElem()
    ensures ElemOk(Elem(AllPorts(), [], [], []))
  {
  }

  lemma PortByte(e: int, p: int)
    requires 0 <= e < ELEMENTS && 0 <= p < PORTS
    ensures (8 * e + p) / 8 == e && (8 * e + p) % 8 == p && 0 <= 8 * e + p < 8 * ELEMENTS && p % 8 == p
  {
  }

  method Index(q: seq<Tok>, id: int) returns (i: int)
    ensures i == Position(q, id)
  {
    i := 0;
    while i < |q| && q[i].id != id
      invariant 0 <= i <= |q| && forall j :: 0 <= j < i ==> q[j].id != id
    {
      i := i + 1;
    }
  }
}
