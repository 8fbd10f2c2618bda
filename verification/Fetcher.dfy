/** The message handlers of kernel/sos_module_fetcher.c on byte bitmaps, against module FetchProtocol. */
module Fetcher {
  import opened Bits
  import opened Common
  import opened FetchProtocol

  /** The bytes of wanted with the bytes of missing cut out, from byte i on unchanged. */
  ghost predicate MaskedTo(v: seq<bv8>, cut: seq<bv8>, i: int, r: seq<bv8>) {
    && |cut| == |v| == |r| && 0 <= i <= |v|
    && forall k :: 0 <= k < |v| ==> r[k] == if k < i then v[k] & !(v[k] & cut[k]) else v[k]
  }

  ghost predicate MergedTo(v: seq<bv8>, w: seq<bv8>, i: int, r: seq<bv8>) {
    |w| == |v| == |r| && 0 <= i <= |v| && forall k :: 0 <= k < |v| ==> r[k] == if k < i then v[k] | w[k] else v[k]
  }

  lemma MaskedBits(v: seq<bv8>, cut: seq<bv8>, r: seq<bv8>)
    requires MaskedTo(v, cut, |v|, r)
    ensures BitSet(r) == BitSet(v) - BitSet(cut)
  {
  }

  lemma MergedBits(v: seq<bv8>, w: seq<bv8>, r: seq<bv8>)
    requires MergedTo(v, w, |v|, r)
    ensures BitSet(r) == BitSet(v) + BitSet(w)
  {
  }

  /** The bitmap that fetcher_request builds for n fragments. */
  lemma FullBits(v: seq<bv8>, n: int)
    requires 0 <= n && |v| == (n + 7) / 8
    requires forall i :: 0 <= i < |v| ==> v[i] == if i == |v| - 1 && n % 8 != 0 then Mask(n % 8) - 1 else 0xff
    ensures BitSet(v) == AllFragments(n)
  {
  }

  class FetcherModule {
    /** The size of every bitmap for the key, in bytes. */
    const bytes: int
    var cam: bool
    var fetching: bool
    var map_: seq<bv8>
    var retx: int
    var src: int
    ghost var parked: Option<Fetch>
    var sending: bool
    var sendMap: seq<bv8>
    var dest: int
    var store: map<int, Frag>
    var queued: int
    ghost var reports: seq<Report>

    ghost predicate Valid()
      reads this
    {
      |map_| == bytes && |sendMap| == bytes && (sending ==> cam)
    }

    /** The node of the protocol that this module stands for. */
    ghost function View(): Node
      reads this
    {
      Node(cam, if fetching then Some(Fetch(BitSet(map_), retx, src)) else None, parked,
           if sending then Some(Offer(BitSet(sendMap), dest)) else None, store, queued, reports)
    }

    /** check_map. */
    method IsEmpty(v: seq<bv8>) returns (r: bool)
      ensures r <==> BitSet(v) == {}
    {
      ZeroVector(v);
      for i := 0 to |v|
        invariant forall k :: 0 <= k < i ==> v[k] == 0
      {
        if v[i] != 0 {
          return false;
        }
      }
      return true;
    }

    method FetcherRequest(frags: int, from: int)
      requires Valid() && 0 <= frags && bytes == (frags + 7) / 8 && !cam && !fetching
      modifies this
      ensures Valid() && View() == Begin(old(View()), frags, from)
    {
      var v := seq(bytes, _ => 0xff);
      if frags % 8 != 0 {
        v := v[bytes - 1 := Mask(frags % 8) - 1];
      }
      FullBits(v, frags);
      cam, map_, retx, src, fetching := true, v, 0, from, true;
      parked := None;
    }

    method FetcherRestart(from: int, saved: seq<bv8>)
      requires Valid() && !fetching && parked.Some? && |saved| == bytes && BitSet(saved) == parked.value.missing
      modifies this
      ensures Valid() && View() == Restart(old(View()), from)
    {
      map_, src, retx, fetching := saved, from, 0, true;
      parked := None;
    }

    method HandleOverheardFragment(id: int)
      requires Valid() && 0 <= id < 8 * bytes
      modifies this`sendMap
      ensures Valid() && View() == Suppress(old(View()), id)
    {
      if sending {
        sendMap := ClearBit(sendMap, id);
      }
    }

    method CheckMapAndPost()
      requires Valid() && fetching
      modifies this
      ensures Valid() && View() == CheckMap(old(View()))
    {
      var done := IsEmpty(map_);
      if done {
        retx := 0;
        reports := reports + [Report(Fetch(BitSet(map_), retx, src), store)];
        fetching := false;
      }
    }

    method HandleFragment(id: int, data: Frag)
      requires Valid() && 0 <= id < 8 * bytes
      modifies this
      ensures Valid() && View() == OnFragment(old(View()), id, data)
    {
      HandleOverheardFragment(id);
      if !fetching {
        return;
      }
      retx := 0;
      var missing := TestBit(map_, id);
      if !cam || !missing {
        return;
      }
      store := store[id := data];
      map_ := ClearBit(map_, id);
      CheckMapAndPost();
    }

    method HandleOtherRequest()
      requires Valid()
      modifies this`retx
      ensures Valid() && View() == OnOtherRequest(old(View()))
    {
      if fetching {
        retx := 0;
      }
    }

    method HandleRequest(from: int, wanted: seq<bv8>)
      requires Valid() && |wanted| == bytes
      modifies this
      ensures Valid() && View() == OnRequest(old(View()), from, BitSet(wanted))
    {
      if !sending {
        if !cam {
          return;
        }
        sendMap, dest, sending := wanted, from, true;
      } else {
        Merge(wanted);
      }
      if fetching {
        MaskMissing();
      }
    }

    method Merge(wanted: seq<bv8>)
      requires Valid() && |wanted| == bytes
      modifies this`sendMap
      ensures Valid() && BitSet(sendMap) == BitSet(old(sendMap)) + BitSet(wanted)
    {
      for i := 0 to |sendMap|
        invariant |sendMap| == bytes && MergedTo(old(sendMap), wanted, i, sendMap)
      {
        sendMap := sendMap[i := sendMap[i] | wanted[i]];
      }
      MergedBits(old(sendMap), wanted, sendMap);
    }

    method MaskMissing()
      requires Valid()
      modifies this`sendMap
      ensures Valid() && BitSet(sendMap) == BitSet(old(sendMap)) - BitSet(map_)
    {
      for i := 0 to |sendMap|
        invariant |sendMap| == bytes && MaskedTo(old(sendMap), map_, i, sendMap)
      {
        var tmp := sendMap[i] & map_[i];
        sendMap := sendMap[i := sendMap[i] & !tmp];
      }
      MaskedBits(old(sendMap), map_, sendMap);
    }

    /** Returns the request to send, if any: where to, and the bitmap. */
    method HandleRequestTimeout(self: int) returns (to: Option<int>, bitmap: seq<bv8>)
      requires Valid()
      modifies this
      ensures Valid() && View() == OnRequestTimeout(old(View()), self).0
      ensures to.Some? <==> OnRequestTimeout(old(View()), self).1.Some?
      ensures to.Some? ==>
                && OnRequestTimeout(old(View()), self).1.value == Request(to.value, self, BitSet(bitmap))
                && |bitmap| == bytes
    {
      to, bitmap := None, [];
      if fetching {
        retx := retx + 1;
        if retx <= MAX_RETX {
          to, bitmap := Some(src), map_;
        } else {
          parked := Some(Fetch(BitSet(map_), retx, src));
          reports := reports + [Report(parked.value, store)];
          fetching := false;
        }
      }
    }

    /** The lowest wanted fragment: first a non-zero byte, then a bit of it. */
    method LowestBit() returns (id: int)
      requires Valid() && BitSet(sendMap) != {}
      ensures 0 <= id < 8 * bytes && IsMin(BitSet(sendMap), id)
    {
      ZeroVector(sendMap);
      var i := 0;
      while i < |sendMap| && sendMap[i] == 0
        invariant 0 <= i <= |sendMap|
        invariant forall k :: 0 <= k < i ==> sendMap[k] == 0
      {
        i := i + 1;
      }
      ZeroByte(sendMap[i]);
      var j, mask: bv8 := 0, 1;
      while j < 8 && mask & sendMap[i] == 0
        invariant 0 <= j <= 8 && mask == Mask(j)
        invariant forall k :: 0 <= k < j ==> !Test(sendMap[i], k)
      {
        MaskShift(j);
        j, mask := j + 1, mask << 1;
      }
      id := 8 * i + j;
      LowestIsMin(sendMap, i, j);
    }

    /** Returns the fragment to send, if any. */
    method HandleTransmitTimeout() returns (id: int, sent: Option<Frag>)
      requires Valid() && forall f :: sending && f in BitSet(sendMap) ==> f in store
      modifies this
      ensures Valid()
      ensures WillSend(old(View())) ==> IsMin(old(BitSet(sendMap)), id) && id in old(store)
      ensures View() == OnTransmitTimeout(old(View()), id).0
      ensures OnTransmitTimeout(old(View()), id).1 == if sent.Some? then Some(Fragment(id, sent.value)) else None
    {
      id, sent := 0, None;
      if queued >= MAX_IN_QUEUE || !sending {
        return;
      }
      var empty := IsEmpty(sendMap);
      if !cam || empty {
        sending := false;
        return;
      }
      id := LowestBit();
      sendMap := ClearBit(sendMap, id);
      sent := Some(store[id]);
      queued := queued + 1;
      empty := IsEmpty(sendMap);
      if empty {
        sending := false;
      }
    }

    method HandleSendDone()
      requires Valid()
      modifies this`queued
      ensures Valid() && View() == OnSendDone(old(View()))
    {
      if queued > 0 {
        queued := queued - 1;
      }
    }
  }

  lemma LowestIsMin(v: seq<bv8>, i: int, j: int)
    requires 0 <= i < |v| && 0 <= j < 8 && Test(v[i], j)
    requires forall k :: 0 <= k < i ==> v[k] == 0
    requires forall k :: 0 <= k < j ==> !Test(v[i], k)
    ensures IsMin(BitSet(v), 8 * i + j)
  {
  }
}
