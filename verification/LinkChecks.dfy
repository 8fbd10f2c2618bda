/**
  What the receiver of module LinkSpec refuses: the fate of every frame body, whatever its CRC, and, for
  every sequence of octets with line errors and memory failures, where a delivered message came from.
 */
module LinkChecks {
  import opened Common
  import opened LinkSpec

  // ---------------------------------------------------------------------------------------------
  // Every body
  // ---------------------------------------------------------------------------------------------

  function Shorter(a: int, b: int): int { if a < b then a else b }

  predicate FlagInHeader(body: seq<byte>) { FLAG in body[..Shorter(HEADER_SIZE, |body|)] }

  /** The octets of header, payload and CRC together, once the header is there. */
  function Length(body: seq<byte>): int
    requires |body| >= HEADER_SIZE
  {
    HEADER_SIZE + body[LEN_OFFSET] + 2
  }

  /** Where a body takes a fresh receiver: refused, complete at its length, or still waiting. */
  function Fate(body: seq<byte>): Rx {
    if FlagInHeader(body) then Idle
    else if |body| < HEADER_SIZE then Inside(body, Plain)
    else if body[LEN_OFFSET] >= MAX_MSG_LEN then Idle
    else if |body| < Length(body) then Inside(body, Plain)
    else Stopping(body[..Length(body)])
  }

  lemma {:induction false} AcceptAny(got: seq<byte>, s: seq<byte>)
    requires Fate(got) == Inside(got, Plain)
    ensures AcceptAll(Inside(got, Plain), s) == Fate(got + s)
    decreases |s|
  {
    if s == [] {
      assert got + s == got;
    } else {
      var got' := got + [s[0]];
      assert got' + s[1..] == got + s;
      AcceptOne(got, s[0]);
      if Fate(got') == Inside(got', Plain) {
        AcceptAny(got', s[1..]);
      } else {
        FateIsFinal(got', s[1..]);
      }
    }
  }

  lemma AcceptOne(got: seq<byte>, b: byte)
    requires Fate(got) == Inside(got, Plain)
    ensures Accept(got, b, Plain, true) == Fate(got + [b])
  {
    var got' := got + [b];
    if |got| < HEADER_SIZE {
      assert got'[..Shorter(HEADER_SIZE, |got'|)] == got' && got[..Shorter(HEADER_SIZE, |got|)] == got;
    } else {
      assert got'[..HEADER_SIZE] == got[..HEADER_SIZE];
      assert |got'| == Length(got) ==> got'[..Length(got)] == got';
    }
  }

  lemma FateIsFinal(got: seq<byte>, s: seq<byte>)
    requires !Fate(got).Inside?
    ensures Fate(got + s) == Fate(got)
  {
    var all := got + s;
    assert all[..Shorter(HEADER_SIZE, |got|)] == got[..Shorter(HEADER_SIZE, |got|)];
    if FlagInHeader(got) {
      var i :| 0 <= i < Shorter(HEADER_SIZE, |got|) && got[i] == FLAG;
      assert all[..Shorter(HEADER_SIZE, |all|)][i] == FLAG;
    } else if Fate(got).Stopping? {
      assert all[..Length(got)] == got[..Length(got)];
    }
  }

  /** The body is that of a message with the right CRC; octets behind it are ignored. */
  predicate Acceptable(c: CrcStep, body: seq<byte>) {
    Fate(body).Stopping? && CrcMatches(c, Fate(body).got)
  }

  /** Every body between flags, stuffed, delivers a message exactly when it is complete and its CRC is right. */
  lemma AnyBody(c: CrcStep, rx: Rx, body: seq<byte>)
    requires rx.Idle? || rx.Started?
    ensures Feed(c, rx, [FLAG, SOS_MSG] + Stuff(body) + [FLAG]).1 ==
            if Acceptable(c, body) then [Received(body[..Length(body)])] else []
  {
    hide Stuff, Accept, AcceptAll, CrcMatches;
    var inside := Inside([], Plain);
    assert [FLAG, SOS_MSG] + Stuff(body) + [FLAG] == [FLAG, SOS_MSG] + (Stuff(body) + [FLAG]);
    FeedConcat(c, rx, [FLAG, SOS_MSG], Stuff(body) + [FLAG]);
    FeedStart(c, rx);
    FeedConcat(c, inside, Stuff(body), [FLAG]);
    FeedStuffed(c, inside, body);
    AcceptAny([], body);
    assert [] + body == body && [FLAG][1..] == [];
  }

  /** A deliverable message arrives with its own CRC and with no other. */
  lemma WrongCrcIsRefused(c: CrcStep, rx: Rx, m: Msg, lo: byte, hi: byte)
    requires WellFormed(m) && Deliverable(m) && (rx.Idle? || rx.Started?)
    ensures Feed(c, rx, [FLAG, SOS_MSG] + Stuff(m.hdr + m.data + [lo, hi]) + [FLAG]).1 ==
            if lo + 256 * (hi as int) == CrcOf(c, m.hdr + m.data) then [m] else []
  {
    var body := m.hdr + m.data + [lo, hi];
    assert body[..HEADER_SIZE] == m.hdr && body[LEN_OFFSET] == m.hdr[LEN_OFFSET];
    assert body[..Length(body)] == body && body[..|body| - 2] == m.hdr + m.data;
    assert body[HEADER_SIZE..|body| - 2] == m.data;
    AnyBody(c, rx, body);
  }

  // ---------------------------------------------------------------------------------------------
  // Every sequence of octets
  // ---------------------------------------------------------------------------------------------

  /** An octet, whether it came with a line error, and whether an allocation would then succeed. */
  datatype Octet = Octet(b: byte, err: bool, mem: bool)

  /** The receiver after these octets, from its start. */
  function After(c: CrcStep, s: seq<Octet>): Rx
    decreases |s|
  {
    if s == [] then Idle else
    var n := |s| - 1;
    Step(c, After(c, s[..n]), s[n].b, s[n].err, s[n].mem).0
  }

  /** The message that the last octet hands over, if any. */
  function HandedOver(c: CrcStep, s: seq<Octet>): Option<Msg>
    requires s != []
  {
    var n := |s| - 1;
    Step(c, After(c, s[..n]), s[n].b, s[n].err, s[n].mem).1
  }

  /** Unstuffing: the octets decoded so far, and the escape state. */
  function Decoded(s: seq<Octet>): (r: (seq<byte>, Escape))
    decreases |s|
  {
    if s == [] then ([], Plain) else
    var n := |s| - 1;
    var (got, esc) := Decoded(s[..n]);
    if s[n].b == ESC then (got, if esc == Plain then Escaped else Stuck) else
    var got' := got + [if esc == Plain then s[n].b else Flip(s[n].b)];
    (got', if esc != Stuck || (|got| >= HEADER_SIZE && |got'| == HEADER_SIZE + PayloadLen(got)) then Plain else Stuck)
  }

  function Octets(s: seq<byte>): (r: seq<Octet>)
    ensures |r| == |s| && forall i :: 0 <= i < |s| ==> r[i] == Octet(s[i], false, true)
  {
    seq(|s|, i requires 0 <= i < |s| => Octet(s[i], false, true))
  }

  /** Unstuffing undoes stuffing. */
  lemma {:induction false} DecodedStuff(s: seq<byte>)
    ensures Decoded(Octets(Stuff(s))) == (s, Plain)
    decreases |s|
  {
    if s == [] {
      assert Octets(Stuff(s)) == [];
    } else {
      hide Decoded, Stuff, Octets, Flip;
      var n := |s| - 1;
      DecodedStuff(s[..n]);
      StuffAppend(s[..n], s[n]);
      assert s == s[..n] + [s[n]];
      var t := Octets(Stuff(s[..n]));
      if Special(s[n]) {
        DecodedTwo(t, s[n]);
        assert Octets(Stuff(s)) == t + [Octet(ESC, false, true), Octet(Flip(s[n]), false, true)];
      } else {
        DecodedPlain(t, s[n]);
        assert Octets(Stuff(s)) == t + [Octet(s[n], false, true)];
      }
    }
  }

  lemma DecodedTwo(t: seq<Octet>, b: byte)
    requires Special(b) && Decoded(t).1 == Plain
    ensures Decoded(t + [Octet(ESC, false, true), Octet(Flip(b), false, true)]) == (Decoded(t).0 + [b], Plain)
  {
    var one := t + [Octet(ESC, false, true)];
    var two := t + [Octet(ESC, false, true), Octet(Flip(b), false, true)];
    assert one[..|one| - 1] == t && two[..|two| - 1] == one;
    assert Decoded(one) == (Decoded(t).0, Escaped);
  }

  lemma DecodedPlain(t: seq<Octet>, b: byte)
    requires !Special(b) && Decoded(t).1 == Plain
    ensures Decoded(t + [Octet(b, false, true)]) == (Decoded(t).0 + [b], Plain)
  {
    var all := t + [Octet(b, false, true)];
    assert all[..|all| - 1] == t;
  }

  lemma {:induction false} StuffAppend(s: seq<byte>, b: byte)
    ensures Stuff(s + [b]) == Stuff(s) + if Special(b) then [ESC, Flip(b)] else [b]
    decreases |s|
  {
    if s == [] {
      assert [b][1..] == [] && s + [b] == [b];
    } else {
      StuffAppend(s[1..], b);
      assert (s + [b])[1..] == s[1..] + [b] && (s + [b])[0] == s[0];
    }
  }

  /** A frame was opened at k - 1 by a flag and at k by the protocol octet. */
  predicate Opened(s: seq<Octet>, k: int) {
    1 <= k < |s| && s[k - 1].b == FLAG && s[k].b == SOS_MSG && !s[k - 1].err && !s[k].err && s[k].mem
  }

  /** Neither a flag nor a line error between k and j. */
  predicate Clean(s: seq<Octet>, k: int, j: int)
    requires 0 <= k && j <= |s|
  {
    forall x :: k < x < j ==> !s[x].err && s[x].b != FLAG
  }

  /** The octets behind k, up to j, decode to got. */
  predicate Carries(s: seq<Octet>, k: int, j: int, got: seq<byte>) {
    Opened(s, k) && k < j <= |s| && Clean(s, k, j) && Decoded(s[k + 1..j]).0 == got
  }

  lemma CarriesMore(s: seq<Octet>, k: int, j: int, got: seq<byte>)
    requires s != [] && Carries(s[..|s| - 1], k, j, got)
    ensures Carries(s, k, j, got)
  {
    assert s[..|s| - 1][k + 1..j] == s[k + 1..j];
  }

  /** What the state of the receiver says about the octets so far. */
  lemma {:induction false} StateMeans(c: CrcStep, s: seq<Octet>) returns (k: int, j: int)
    ensures var rx := After(c, s);
            && (rx.Started? ==> s != [] && s[|s| - 1].b == FLAG && !s[|s| - 1].err)
            && (rx.Inside? ==> Carries(s, k, |s|, rx.got) && Decoded(s[k + 1..]).1 == rx.esc && Fate(rx.got).Inside?)
            && (rx.Stopping? ==> Carries(s, k, j, rx.got) && Fate(rx.got) == Stopping(rx.got))
    decreases |s|
  {
    k, j := 0, 0;
    if s != [] {
      var n := |s| - 1;
      var s0, o := s[..n], s[n];
      k, j := StateMeans(c, s0);
      var rx0, rx := After(c, s0), After(c, s);
      if rx0.Started? && rx.Inside? {
        k := n;
        assert s[n + 1..] == [] && s[k + 1..|s|] == [];
      } else if rx0.Inside? && !rx.Idle? {
        GoesOn(s, k, rx0, rx);
        j := |s|;
      } else if rx0.Stopping? && rx.Stopping? {
        CarriesMore(s, k, j, rx0.got);
      }
    }
  }

  /** One more octet inside a frame. */
  lemma GoesOn(s: seq<Octet>, k: int, rx0: Rx, rx: Rx)
    requires s != [] && rx0.Inside? && !rx.Idle?
    requires var n := |s| - 1;
             && Carries(s[..n], k, n, rx0.got) && Decoded(s[k + 1..n]).1 == rx0.esc && Fate(rx0.got).Inside?
             && !s[n].err && s[n].b != FLAG
             && rx == if s[n].b == ESC then Inside(rx0.got, if rx0.esc == Plain then Escaped else Stuck)
                      else Accept(rx0.got, if rx0.esc == Plain then s[n].b else Flip(s[n].b),
                                  if rx0.esc == Stuck then Stuck else Plain, s[n].mem)
    ensures !rx.Started? && Carries(s, k, |s|, rx.got)
    ensures rx.Inside? ==> Decoded(s[k + 1..]).1 == rx.esc && Fate(rx.got).Inside?
    ensures rx.Stopping? ==> Fate(rx.got) == Stopping(rx.got)
  {
    var n := |s| - 1;
    var t := s[k + 1..];
    assert t == s[k + 1..|s|] && t[..|t| - 1] == s[k + 1..n] == s[..n][k + 1..n] && t[|t| - 1] == s[n];
    if s[n].b != ESC {
      AcceptGeneral(rx0.got, if rx0.esc == Plain then s[n].b else Flip(s[n].b),
                    if rx0.esc == Stuck then Stuck else Plain, s[n].mem);
    }
  }

  /** A decoded octet leads where the fate of the longer body says, or out of the frame without memory. */
  lemma AcceptGeneral(got: seq<byte>, b: byte, esc: Escape, mem: bool)
    requires Fate(got).Inside?
    ensures var rx, got' := Accept(got, b, esc, mem), got + [b];
            && !rx.Started? && (rx.Inside? || rx.Stopping? ==> rx.got == got' && (rx.Inside? <==> Fate(got').Inside?))
            && (rx.Stopping? ==> Fate(got') == Stopping(got'))
            && (rx.Inside? ==> rx.esc == if |got| >= HEADER_SIZE && |got'| == HEADER_SIZE + PayloadLen(got) then Plain
                                         else esc)
  {
    AcceptOne(got, b);
  }

  /**
    Whatever happens on the line: a message is handed over only at a flag, and only when the octets since the
    last opening of a frame, free of flags and line errors, decode to its header, its payload and their CRC.
   */
  lemma DeliveredIsChecked(c: CrcStep, s: seq<Octet>) returns (k: int, j: int)
    requires s != []
    ensures HandedOver(c, s).Some? ==>
      var m := HandedOver(c, s).value;
      && s[|s| - 1].b == FLAG && WellFormed(m) && Deliverable(m)
      && Carries(s[..|s| - 1], k, j, m.hdr + m.data + CrcBytes(CrcOf(c, m.hdr + m.data)))
  {
    var n := |s| - 1;
    k, j := StateMeans(c, s[..n]);
    if HandedOver(c, s).Some? {
      Complete(c, After(c, s[..n]).got);
    }
  }

  lemma Complete(c: CrcStep, got: seq<byte>)
    requires Fate(got) == Stopping(got) && CrcMatches(c, got)
    ensures |got| >= HEADER_SIZE + 2 && var m := Received(got);
            WellFormed(m) && Deliverable(m) && got == m.hdr + m.data + CrcBytes(CrcOf(c, m.hdr + m.data))
  {
    var m := Received(got);
    assert |got| == |got[..Length(got)]| == Length(got);
    assert got[..|got| - 2] == m.hdr + m.data;
    assert got == got[..|got| - 2] + [got[|got| - 2], got[|got| - 1]];
  }
}
