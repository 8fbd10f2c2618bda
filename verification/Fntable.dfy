/** kernel/fntable.c: the links between subscribed and provided functions, kept up to date as modules come and go. */
module Fntable {
  import opened Common

  const RUNTIME_PID := 255

  /** func_cb_t without the function pointer. */
  datatype Entry = Entry(proto: seq<int>, pid: int, fid: int)

  /** A module header: the subscribed entries, then the provided ones. */
  datatype Hdr = Hdr(funct: seq<Entry>, numSub: int, numProv: int)

  /** func_cb_ptr: an entry of a module's header. */
  datatype Cb = Cb(pid: int, index: int)

  type Modules = map<int, Hdr>
  type Slots = map<int, seq<Cb>>

  /** The header belongs to module p, and its provided entries carry p. */
  ghost predicate HdrOk(p: int, h: Hdr) {
    && 0 <= p < RUNTIME_PID && 0 <= h.numSub && 0 <= h.numProv && h.numSub + h.numProv == |h.funct| <= 255
    && (forall k :: 0 <= k < |h.funct| ==> |h.funct[k].proto| == 4)
    && (forall k :: h.numSub <= k < |h.funct| ==> h.funct[k].pid == p)
  }

  /** The first provided entry with the function id, or -1. */
  function Provided(h: Hdr, fid: int, from: int): (k: int)
    requires 0 <= from <= |h.funct|
    ensures k == -1 || from <= k < |h.funct|
    ensures k != -1 ==> h.funct[k].fid == fid && forall l :: from <= l < k ==> h.funct[l].fid != fid
    ensures k == -1 ==> forall l :: from <= l < |h.funct| ==> h.funct[l].fid != fid
    decreases |h.funct| - from
  {
    if from == |h.funct| then -1 else if h.funct[from].fid == fid then from else Provided(h, fid, from + 1)
  }

  /** check_proto. */
  predicate SameProto(a: Entry, b: Entry)
    requires |a.proto| == 4 == |b.proto|
  {
    a.proto[0] == b.proto[0] && a.proto[1] == b.proto[1] && a.proto[2] == b.proto[2] && a.proto[3] == b.proto[3]
  }

  /** What a subscription s finds in module p, if anything; the own module is not asked for the prototype. */
  function Lookup(s: Entry, p: int, h: Hdr, own: bool): Option<Cb>
    requires 0 <= h.numSub <= |h.funct| && |s.proto| == 4 && forall k :: 0 <= k < |h.funct| ==> |h.funct[k].proto| == 4
  {
    var k := Provided(h, s.fid, h.numSub);
    if k != -1 && (own || SameProto(h.funct[k], s)) then Some(Cb(p, k)) else None
  }

  ghost predicate AllOk(mods: Modules) { forall p :: p in mods ==> HdrOk(p, mods[p]) }

  /** Linking from scratch: where slot i of module q points when exactly these modules are registered. */
  ghost function Resolve(mods: Modules, q: int, i: int): Cb
    requires AllOk(mods) && q in mods && 0 <= i < mods[q].numSub
  {
    var s := mods[q].funct[i];
    var found := if s.pid in mods then Lookup(s, s.pid, mods[s.pid], s.pid == q) else None;
    if found.Some? then found.value else Cb(q, i)
  }

  /** A slot that is filled at run time points to its own entry or to a provided entry of a registered module. */
  ghost predicate Sound(mods: Modules, q: int, i: int, c: Cb) {
    c == Cb(q, i) || (c.pid in mods && mods[c.pid].numSub <= c.index < |mods[c.pid].funct|)
  }

  ghost predicate SlotOk(mods: Modules, q: int, i: int, c: Cb)
    requires AllOk(mods) && q in mods && 0 <= i < mods[q].numSub
  {
    if mods[q].funct[i].pid == RUNTIME_PID then Sound(mods, q, i, c) else c == Resolve(mods, q, i)
  }

  /** Incremental linking agrees with linking from scratch. */
  ghost predicate Linked(mods: Modules, slots: Slots) {
    && AllOk(mods) && slots.Keys == mods.Keys
    && (forall q :: q in mods ==> |slots[q]| == mods[q].numSub)
    && (forall q, i {:trigger slots[q][i]} :: q in mods && 0 <= i < mods[q].numSub ==> SlotOk(mods, q, i, slots[q][i]))
  }

  /**
    A static slot is linked to another module exactly when that module is registered and the first entry it
    provides with the function id has the same prototype; otherwise it points to the subscriber's own entry,
    or into the subscriber's own table when the subscription names the subscriber itself.
   */
  lemma StaticSlotMeans(mods: Modules, slots: Slots, q: int, i: int, p: int, k: int)
    requires Linked(mods, slots) && q in mods && 0 <= i < mods[q].numSub && mods[q].funct[i].pid != RUNTIME_PID
    requires p != q
    ensures slots[q][i] == Cb(p, k) <==> p == mods[q].funct[i].pid && p in mods && Offers(mods[p], k, mods[q].funct[i])
    ensures slots[q][i].pid == q && mods[q].funct[i].pid != q ==> slots[q][i] == Cb(q, i)
  {
    assert SlotOk(mods, q, i, slots[q][i]);
    var s := mods[q].funct[i];
    if p in mods {
      ProtoIsWhole(mods[p], s);
    }
  }

  /** Entry k of the header is the first provided one with the function id of s, and its prototype is that of s. */
  ghost predicate Offers(h: Hdr, k: int, s: Entry) {
    && 0 <= h.numSub <= k < |h.funct| && h.funct[k].fid == s.fid && h.funct[k].proto == s.proto
    && forall l :: h.numSub <= l < k ==> h.funct[l].fid != s.fid
  }

  lemma ProtoIsWhole(h: Hdr, s: Entry)
    requires |s.proto| == 4 && forall k :: 0 <= k < |h.funct| ==> |h.funct[k].proto| == 4
    ensures forall k :: 0 <= k < |h.funct| ==> (SameProto(h.funct[k], s) <==> h.funct[k].proto == s.proto)
  {
  }

  /** The static links depend on the set of modules only, not on the order in which they came. */
  lemma OrderDoesNotMatter(mods: Modules, slots: Slots, slots': Slots, q: int, i: int)
    requires Linked(mods, slots) && Linked(mods, slots') && q in mods && 0 <= i < mods[q].numSub
    requires mods[q].funct[i].pid != RUNTIME_PID
    ensures slots[q][i] == slots'[q][i]
  {
  }

  /** No slot of a registered module points into the table of a module that is not registered. */
  lemma NoDanglingSlot(mods: Modules, slots: Slots, q: int, i: int)
    requires Linked(mods, slots) && q in mods && 0 <= i < mods[q].numSub
    ensures slots[q][i].pid in mods && 0 <= slots[q][i].index < |mods[slots[q][i].pid].funct|
    ensures slots[q][i] == Cb(q, i) || mods[slots[q][i].pid].numSub <= slots[q][i].index
  {
  }

  // ---------------------------------------------------------------------------------------------
  // One module comes or goes
  // ---------------------------------------------------------------------------------------------

  /** What fntable_link_provided_functions makes of slot i of module q when module p comes or goes. */
  function NewSlot(hq: Hdr, q: int, i: int, c: Cb, p: int, h: Hdr, link: bool): Cb
    requires 0 <= i < |hq.funct| && |hq.funct[i].proto| == 4
    requires 0 <= h.numSub <= |h.funct| && forall k :: 0 <= k < |h.funct| ==> |h.funct[k].proto| == 4
  {
    var s := hq.funct[i];
    if s.pid == p then
      var k := Provided(h, s.fid, h.numSub);
      if k == -1 then c
      else if !link then Cb(q, i)
      else if SameProto(h.funct[k], s) then Cb(p, k) else c
    else if s.pid == RUNTIME_PID && !link && c.pid == p && h.numSub <= c.index < |h.funct| then Cb(q, i)
    else c
  }

  /** The slots of all registered modules have been gone through for module p. */
  ghost predicate Relinked(mods: Modules, slots: Slots, slots': Slots, p: int, h: Hdr, link: bool) {
    && AllOk(mods) && HdrOk(p, h) && slots'.Keys == slots.Keys == mods.Keys
    && (forall q :: q in mods ==> |slots'[q]| == |slots[q]| == mods[q].numSub)
    && (forall q, i {:trigger slots'[q][i]} :: q in mods && 0 <= i < mods[q].numSub ==>
          slots'[q][i] == NewSlot(mods[q], q, i, slots[q][i], p, h, link))
  }

  /** The slots of module q as fntable_link_subscribed_functions fills them. */
  ghost predicate SelfLinked(mods: Modules, q: int, s: seq<Cb>)
    requires AllOk(mods) && q in mods
  {
    |s| == mods[q].numSub && forall i :: 0 <= i < |s| ==>
      s[i] == if mods[q].funct[i].pid == RUNTIME_PID then Cb(q, i) else Resolve(mods, q, i)
  }

  lemma RegisterKeepsLinked(mods: Modules, slots: Slots, slots': Slots, p: int, h: Hdr, own: seq<Cb>)
    requires Linked(mods, slots) && p !in mods && HdrOk(p, h)
    requires if h.numProv > 0 then Relinked(mods, slots, slots', p, h, true) else slots' == slots
    requires AllOk(mods[p := h]) ==> SelfLinked(mods[p := h], p, own)
    ensures Linked(mods[p := h], slots'[p := own])
  {
  }

  lemma RemoveKeepsLinked(mods: Modules, slots: Slots, slots': Slots, p: int, h: Hdr)
    requires Linked(mods, slots) && p in mods && mods[p] == h
    requires if h.numProv > 0 then Relinked(mods - {p}, slots - {p}, slots', p, h, false) else slots' == slots - {p}
    ensures Linked(mods - {p}, slots')
  {
  }

  /** A new module changes no slot that was filled at run time. */
  ghost predicate RunTimeSlotsKept(mods: Modules, slots: Slots, slots': Slots) {
    forall q, i {:trigger slots'[q][i]} :: RunTimeSlot(mods, slots, q, i) && q in slots' && i < |slots'[q]| ==>
      slots'[q][i] == slots[q][i]
  }

  /** A module that goes resets exactly the run-time slots that point to what it provides. */
  ghost predicate RunTimeSlotsLeft(mods: Modules, slots: Slots, slots': Slots, p: int) {
    forall q, i {:trigger slots'[q][i]} :: RunTimeSlot(mods, slots, q, i) && q in slots' && i < |slots'[q]| ==>
      slots'[q][i] == if slots[q][i].pid == p then Cb(q, i) else slots[q][i]
  }

  ghost predicate RunTimeSlot(mods: Modules, slots: Slots, q: int, i: int) {
    && q in mods && q in slots && 0 <= i < |slots[q]| && i < mods[q].numSub && i < |mods[q].funct|
    && mods[q].funct[i].pid == RUNTIME_PID
  }

  lemma RegisterKeepsRunTime(mods: Modules, slots: Slots, slots': Slots, p: int, h: Hdr, own: seq<Cb>)
    requires Linked(mods, slots) && p !in mods && HdrOk(p, h)
    requires if h.numProv > 0 then Relinked(mods, slots, slots', p, h, true) else slots' == slots
    ensures RunTimeSlotsKept(mods, slots, slots'[p := own])
  {
  }

  lemma RemoveKeepsRunTime(mods: Modules, slots: Slots, slots': Slots, p: int, h: Hdr)
    requires Linked(mods, slots) && p in mods && mods[p] == h
    requires if h.numProv > 0 then Relinked(mods - {p}, slots - {p}, slots', p, h, false) else slots' == slots - {p}
    ensures RunTimeSlotsLeft(mods, slots, slots', p)
  {
  }

  // ---------------------------------------------------------------------------------------------
  // The module table
  // ---------------------------------------------------------------------------------------------

  /** hash_pid. */
  function Bin(pid: int, n: int): (b: int)
    requires 0 < n
    ensures 0 <= b < n
  {
    pid % n
  }

  /** Every registered module is in the list of its bin, once. */
  ghost predicate BinsOk(bins: seq<seq<int>>, mods: Modules) {
    && bins != []
    && (forall p :: p in mods ==> p in bins[Bin(p, |bins|)])
    && (forall b, k {:trigger bins[b][k]} :: 0 <= b < |bins| && 0 <= k < |bins[b]| ==>
          bins[b][k] in mods && Bin(bins[b][k], |bins|) == b)
    && (forall b, k, l {:trigger bins[b][k], bins[b][l]} :: 0 <= b < |bins| && 0 <= k < l < |bins[b]| ==>
          bins[b][k] != bins[b][l])
  }

  lemma BinsAdd(bins: seq<seq<int>>, mods: Modules, p: int, h: Hdr)
    requires BinsOk(bins, mods) && p !in mods
    ensures var b := Bin(p, |bins|); BinsOk(bins[b := [p] + bins[b]], mods[p := h])
  {
  }

  lemma BinsRemove(bins: seq<seq<int>>, mods: Modules, b: int, k: int)
    requires BinsOk(bins, mods) && 0 <= b < |bins| && 0 <= k < |bins[b]|
    ensures BinsOk(bins[b := bins[b][..k] + bins[b][k + 1..]], mods - {bins[b][k]})
  {
  }

  /** fntable_get_prov_cb. */
  method GetProvCb(h: Hdr, fid: int) returns (k: int)
    requires 0 <= h.numSub <= |h.funct|
    ensures k == Provided(h, fid, h.numSub)
  {
    k := h.numSub;
    while k < |h.funct|
      invariant h.numSub <= k <= |h.funct|
      invariant Provided(h, fid, h.numSub) == Provided(h, fid, k)
    {
      if h.funct[k].fid == fid {
        return;
      }
      k := k + 1;
    }
    return -1;
  }

  class Linker {
    /** mod_bin: per bin the list of registered modules. */
    var bins: seq<seq<int>>
    /** The headers, and the slots at the start of the modules' states. */
    var mods: Modules
    var slots: Slots

    ghost predicate Valid()
      reads this
    {
      BinsOk(bins, mods) && Linked(mods, slots)
    }

    constructor (numBins: nat)
      requires numBins > 0
      ensures Valid() && mods == map[]
    {
      bins := seq(numBins, _ => []);
      mods, slots := map[], map[];
    }

    /** The search of ker_get_module in the bin of the module. */
    method GetModule(pid: int) returns (found: bool)
      requires BinsOk(bins, mods)
      ensures found <==> pid in mods
    {
      hide Bin;
      var list := bins[Bin(pid, |bins|)];
      var k := 0;
      while k < |list|
        invariant 0 <= k <= |list| && pid !in list[..k]
      {
        if list[k] == pid {
          return true;
        }
        k := k + 1;
      }
      assert list[..k] == list;
      return false;
    }

    /** fntable_real_subscribe: the entry of module pub that entry s of a subscriber may use. */
    method RealSubscribe(s: Entry, pub: int, fid: int) returns (cb: Option<Cb>)
      requires BinsOk(bins, mods) && AllOk(mods) && |s.proto| == 4
      ensures pub in mods ==> HdrOk(pub, mods[pub]) && cb == Lookup(s.(fid := fid), pub, mods[pub], false)
      ensures pub !in mods ==> cb == None
    {
      hide Provided;
      var found := GetModule(pub);
      if !found {
        return None;
      }
      var h := mods[pub];
      var k := GetProvCb(h, fid);
      if k == -1 {
        return None;
      }
      if SameProto(h.funct[k], s) {
        return Some(Cb(pub, k));
      }
      return None;
    }

    /** fntable_link_subscribed_functions for the module p that is about to be registered. */
    method LinkSubscribed(p: int, h: Hdr) returns (own: seq<Cb>)
      requires BinsOk(bins, mods) && AllOk(mods) && p !in mods && HdrOk(p, h)
      ensures AllOk(mods[p := h]) && SelfLinked(mods[p := h], p, own)
    {
      hide Provided;
      assert AllOk(mods[p := h]);
      own := [];
      var i := 0;
      while i < h.numSub
        invariant 0 <= i == |own| <= h.numSub
        invariant forall j :: 0 <= j < i ==>
                    own[j] == if h.funct[j].pid == RUNTIME_PID then Cb(p, j) else Resolve(mods[p := h], p, j)
      {
        var s := h.funct[i];
        var cb: Option<Cb> := None;
        if s.pid == p {
          var k := GetProvCb(h, s.fid);
          cb := if k == -1 then None else Some(Cb(p, k));
        } else if s.pid != RUNTIME_PID {
          cb := RealSubscribe(s, s.pid, s.fid);
        }
        own := own + [if cb.Some? then cb.value else Cb(p, i)];
        i := i + 1;
      }
    }

    /** The part of fntable_link_provided_functions for one subscriber. */
    method RelinkModule(q: int, p: int, h: Hdr, link: bool)
      requires AllOk(mods) && q in mods && q in slots && |slots[q]| == mods[q].numSub && HdrOk(p, h)
      modifies this`slots
      ensures slots.Keys == old(slots).Keys && |slots[q]| == |old(slots)[q]|
      ensures forall x :: x in slots && x != q ==> slots[x] == old(slots)[x]
      ensures HdrOk(q, mods[q]) && forall i :: 0 <= i < |slots[q]| ==>
                slots[q][i] == NewSlot(mods[q], q, i, old(slots)[q][i], p, h, link)
    {
      hide Provided;
      var hq := mods[q];
      ghost var s0 := slots[q];
      var s := slots[q];
      var i := 0;
      while i < hq.numSub
        invariant 0 <= i <= hq.numSub == |s| && slots == old(slots)
        invariant forall j :: 0 <= j < i ==> s[j] == NewSlot(hq, q, j, s0[j], p, h, link)
        invariant forall j :: i <= j < |s| ==> s[j] == s0[j]
      {
        var e := hq.funct[i];
        if e.pid == p {
          var k := GetProvCb(h, e.fid);
          if k != -1 {
            if link {
              if SameProto(h.funct[k], e) {
                s := s[i := Cb(p, k)];
              }
            } else {
              s := s[i := Cb(q, i)];
            }
          }
        } else if e.pid == RUNTIME_PID && !link {
          var k := h.numSub;
          while k < |h.funct| && Cb(p, k) != s[i]
            invariant h.numSub <= k <= |h.funct| && slots == old(slots)
            invariant forall l :: h.numSub <= l < k ==> Cb(p, l) != s[i]
          {
            k := k + 1;
          }
          if k < |h.funct| {
            s := s[i := Cb(q, i)];
          }
        }
        i := i + 1;
      }
      slots := slots[q := s];
    }

    /** fntable_link_provided_functions: all registered modules are gone through, bin by bin. */
    method LinkProvided(p: int, h: Hdr, link: bool)
      requires BinsOk(bins, mods) && AllOk(mods) && HdrOk(p, h) && slots.Keys == mods.Keys
      requires forall q :: q in mods ==> |slots[q]| == mods[q].numSub
      modifies this`slots
      ensures Relinked(mods, old(slots), slots, p, h, link)
    {
      hide Provided, BinsOk, NewSlot, HdrOk, Visiting, Passed, AllOk;
      ghost var done: set<int> := {};
      var b := 0;
      VisitStart(mods, slots, p, h, link);
      PassedNone(bins, mods);
      while b < |bins|
        invariant 0 <= b <= |bins| && Visiting(mods, old(slots), slots, p, h, link, done)
        invariant Passed(bins, mods, done, b, 0)
      {
        var k := 0;
        while k < |bins[b]|
          invariant 0 <= k <= |bins[b]| && Visiting(mods, old(slots), slots, p, h, link, done)
          invariant Passed(bins, mods, done, b, k)
        {
          var q := bins[b][k];
          PassedStep(bins, mods, done, b, k);
          VisitMeans(mods, old(slots), slots, p, h, link, done);
          ghost var slots1 := slots;
          RelinkModule(q, p, h, link);
          VisitStep(mods, old(slots), slots1, slots, p, h, link, done, q);
          done := done + {q};
          k := k + 1;
        }
        PassedBin(bins, mods, done, b);
        b := b + 1;
      }
      VisitEnd(bins, mods, old(slots), slots, p, h, link, done);
    }

    /** sched_register_module up to the posting of MSG_INIT; timersOk: the timers could be preallocated. */
    method Register(p: int, h: Hdr, timersOk: bool) returns (ok: bool)
      requires Valid() && HdrOk(p, h)
      modifies this
      ensures Valid() && (ok <==> p !in old(mods) && timersOk)
      ensures mods == if ok then old(mods)[p := h] else old(mods)
      ensures !ok ==> slots == old(slots)
      ensures ok ==> RunTimeSlotsKept(old(mods), old(slots), slots)
    {
      hide Provided, Bin, HdrOk, SlotOk, Resolve;
      var registered := GetModule(p);
      if registered || !timersOk {
        return false;
      }
      ghost var slots0 := slots;
      var own := LinkSubscribed(p, h);
      if h.numProv > 0 {
        LinkProvided(p, h, true);
      }
      RegisterKeepsLinked(mods, slots0, slots, p, h, own);
      RegisterKeepsRunTime(mods, slots0, slots, p, h, own);
      BinsAdd(bins, mods, p, h);
      var b := Bin(p, |bins|);
      bins := bins[b := [p] + bins[b]];
      mods, slots := mods[p := h], slots[p := own];
      return true;
    }

    /** ker_deregister_module as far as the module table and fntable_remove_all are concerned. */
    method Deregister(p: int) returns (ok: bool)
      requires Valid()
      modifies this
      ensures Valid() && (ok <==> p in old(mods)) && mods == old(mods) - {p}
      ensures !ok ==> slots == old(slots)
      ensures ok ==> RunTimeSlotsLeft(old(mods), old(slots), slots, p)
    {
      hide Provided, Bin, HdrOk, SlotOk, Resolve, Relinked;
      var b, k := Bin(p, |bins|), 0;
      while k < |bins[b]| && bins[b][k] != p
        invariant 0 <= k <= |bins[b]| && p !in bins[b][..k]
      {
        k := k + 1;
      }
      if k == |bins[b]| {
        assert bins[b][..k] == bins[b];
        assert mods - {p} == mods;
        return false;
      }
      ghost var mods0, slots0 := mods, slots;
      var h := mods[p];
      BinsRemove(bins, mods, b, k);
      bins := bins[b := bins[b][..k] + bins[b][k + 1..]];
      mods, slots := mods - {p}, slots - {p};
      if h.numProv > 0 {
        LinkProvided(p, h, false);
      }
      RemoveKeepsLinked(mods0, slots0, slots, p, h);
      RemoveKeepsRunTime(mods0, slots0, slots, p, h);
      return true;
    }

    /** ker_fntable_subscribe for a slot that is filled at run time. */
    method Subscribe(q: int, pub: int, fid: int, i: int) returns (ok: bool)
      requires Valid() && (q in mods ==> 0 <= i < mods[q].numSub && mods[q].funct[i].pid == RUNTIME_PID)
      modifies this`slots
      ensures Valid() && (ok <==> q in mods) && (!ok ==> slots == old(slots))
      ensures ok ==> slots.Keys == old(slots).Keys && slots[q] == old(slots)[q][i := slots[q][i]]
      ensures ok ==> forall x :: x in mods && x != q ==> slots[x] == old(slots)[x]
      ensures ok ==> HdrOk(q, mods[q]) && (pub in mods ==> HdrOk(pub, mods[pub])) &&
                     var found := if pub in mods then Lookup(mods[q].funct[i].(fid := fid), pub, mods[pub], false)
                       else None;
                     slots[q][i] == if found.Some? then found.value else Cb(q, i)
    {
      hide Provided, Bin;
      var found := GetModule(q);
      if !found {
        return false;
      }
      assert HdrOk(q, mods[q]);
      var cb := RealSubscribe(mods[q].funct[i], pub, fid);
      var c := if cb.Some? then cb.value else Cb(q, i);
      assert Sound(mods, q, i, c);
      ghost var s0 := slots;
      slots := slots[q := slots[q][i := c]];
      assert forall x, j :: x in mods && 0 <= j < mods[x].numSub && !(x == q && j == i) ==> slots[x][j] == s0[x][j];
      return true;
    }
  }

  /** The modules in done have been gone through, and the others are as before. */
  ghost predicate Visiting(mods: Modules, slots: Slots, slots': Slots, p: int, h: Hdr, link: bool, done: set<int>) {
    && AllOk(mods) && HdrOk(p, h) && slots'.Keys == slots.Keys == mods.Keys
    && (forall q :: q in mods ==> HdrOk(q, mods[q]) && |slots'[q]| == |slots[q]| == mods[q].numSub)
    && (forall q :: q in mods && q !in done ==> slots'[q] == slots[q])
    && (forall q, i {:trigger slots'[q][i]} :: q in mods && q in done && 0 <= i < mods[q].numSub ==>
          slots'[q][i] == NewSlot(mods[q], q, i, slots[q][i], p, h, link))
  }

  /** The modules in done are those of the bins below b and the first k of bin b. */
  ghost predicate Passed(bins: seq<seq<int>>, mods: Modules, done: set<int>, b: int, k: int) {
    && bins != [] && 0 <= b <= |bins| && 0 <= k && (b < |bins| ==> k <= |bins[b]|)
    && forall q :: q in mods ==> (q in done <==> Bin(q, |bins|) < b || (b < |bins| && q in bins[b][..k]))
  }

  lemma PassedNone(bins: seq<seq<int>>, mods: Modules)
    requires BinsOk(bins, mods)
    ensures Passed(bins, mods, {}, 0, 0)
  {
  }

  lemma PassedStep(bins: seq<seq<int>>, mods: Modules, done: set<int>, b: int, k: int)
    requires BinsOk(bins, mods) && Passed(bins, mods, done, b, k) && b < |bins| && k < |bins[b]|
    ensures bins[b][k] in mods && bins[b][k] !in done && Passed(bins, mods, done + {bins[b][k]}, b, k + 1)
  {
    hide Bin;
    assert bins[b][k] !in bins[b][..k];
    assert bins[b][..k + 1] == bins[b][..k] + [bins[b][k]];
  }

  lemma PassedBin(bins: seq<seq<int>>, mods: Modules, done: set<int>, b: int)
    requires BinsOk(bins, mods) && 0 <= b < |bins| && Passed(bins, mods, done, b, |bins[b]|)
    ensures Passed(bins, mods, done, b + 1, 0)
  {
    hide Bin;
    assert bins[b][..|bins[b]|] == bins[b];
  }

  lemma VisitStart(mods: Modules, slots: Slots, p: int, h: Hdr, link: bool)
    requires AllOk(mods) && HdrOk(p, h) && slots.Keys == mods.Keys
    requires forall q :: q in mods ==> |slots[q]| == mods[q].numSub
    ensures Visiting(mods, slots, slots, p, h, link, {})
  {
  }

  lemma VisitMeans(mods: Modules, slots: Slots, slots': Slots, p: int, h: Hdr, link: bool, done: set<int>)
    requires Visiting(mods, slots, slots', p, h, link, done)
    ensures slots'.Keys == mods.Keys && forall q :: q in mods ==> |slots'[q]| == mods[q].numSub
  {
  }

  lemma VisitStep(mods: Modules, slots: Slots, slots1: Slots, slots2: Slots, p: int, h: Hdr, link: bool, done: set<int>,
                  q: int)
    requires Visiting(mods, slots, slots1, p, h, link, done) && q in mods && q !in done
    requires slots2.Keys == slots1.Keys && |slots2[q]| == |slots1[q]| && HdrOk(q, mods[q])
    requires forall x :: x in slots2 && x != q ==> slots2[x] == slots1[x]
    requires forall i :: 0 <= i < |slots2[q]| ==> slots2[q][i] == NewSlot(mods[q], q, i, slots1[q][i], p, h, link)
    ensures Visiting(mods, slots, slots2, p, h, link, done + {q})
  {
    hide NewSlot, HdrOk;
  }

  lemma VisitEnd(bins: seq<seq<int>>, mods: Modules, slots: Slots, slots': Slots, p: int, h: Hdr, link: bool,
                 done: set<int>)
    requires Visiting(mods, slots, slots', p, h, link, done) && Passed(bins, mods, done, |bins|, 0)
    ensures Relinked(mods, slots, slots', p, h, link)
  {
    hide NewSlot, HdrOk;
    forall q | q in mods ensures q in done {
      assert Bin(q, |bins|) < |bins|;
    }
  }
}
