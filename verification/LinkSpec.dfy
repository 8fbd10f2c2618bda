/**
  The framing of drivers/uart/uart.c: octet stuffing as in section 4.2 of RFC 1662, a flag at either
  end, and a 16-bit CRC whose step function is arbitrary.  The receiver appears as an automaton over
  the octets decoded so far.
 */
module LinkSpec {
  import opened Common

  type word = x: int | 0 <= x < 0x1_0000
  /** crcByte as an arbitrary function of the CRC so far and the next octet. */
  type CrcStep = map<(word, byte), word>

  function CrcByte(c: CrcStep, crc: word, b: byte): word { if (crc, b) in c then c[(crc, b)] else 0 }

  const FLAG: byte := 0x7e
  const ESC: byte := 0x7d
  const EXT: byte := 0x03
  const SOS_MSG: byte := 0x01
  const RAW: byte := 0x05
  const HEADER_SIZE := 8
  const LEN_OFFSET := 7
  const MAX_MSG_LEN := 128

  /** A message as it is transmitted: the header up to and including len, and the payload. */
  datatype Msg = Msg(hdr: seq<byte>, data: seq<byte>)

  predicate WellFormed(m: Msg) { |m.hdr| == HEADER_SIZE && |m.data| == m.hdr[LEN_OFFSET] }

  /** 0x20 ^ b. */
  function Flip(b: byte): byte {
    if b < 32 || 64 <= b < 96 || 128 <= b < 160 || 192 <= b < 224 then b + 32 else b - 32
  }

  lemma FlipIsXor(x: bv8)
    ensures Flip(x as int) == (x ^ 0x20) as int
  {
    if x & 0x20 == 0 {
      assert x ^ 0x20 == x + 0x20;
    } else {
      assert x ^ 0x20 == x - 0x20;
    }
  }

  predicate Special(b: byte) { b == FLAG || b == ESC || b == EXT }

  function Stuff(s: seq<byte>): seq<byte> {
    if s == [] then [] else (if Special(s[0]) then [ESC, Flip(s[0])] else [s[0]]) + Stuff(s[1..])
  }

  function CrcFrom(c: CrcStep, crc: word, s: seq<byte>): word
    decreases |s|
  {
    if s == [] then crc else CrcFrom(c, CrcByte(c, crc, s[0]), s[1..])
  }

  function CrcOf(c: CrcStep, s: seq<byte>): word { CrcFrom(c, CrcByte(c, 0, SOS_MSG), s) }

  lemma {:induction false} CrcAppend(c: CrcStep, crc: word, s: seq<byte>, b: byte)
    ensures CrcFrom(c, crc, s + [b]) == CrcByte(c, CrcFrom(c, crc, s), b)
    decreases |s|
  {
    if s == [] {
      assert [b][1..] == [];
    } else {
      assert (s + [b])[1..] == s[1..] + [b];
      CrcAppend(c, CrcByte(c, crc, s[0]), s[1..], b);
    }
  }

  /** The CRC starts at zero and covers the protocol octet, the header and the payload. */
  lemma CrcCovers(c: CrcStep, s: seq<byte>)
    ensures CrcOf(c, s) == CrcFrom(c, 0, [SOS_MSG] + s)
  {
    assert ([SOS_MSG] + s)[1..] == s;
  }

  lemma CrcOfNothing(c: CrcStep)
    ensures CrcOf(c, []) == CrcByte(c, 0, SOS_MSG)
  {
  }

  lemma CrcOfAppend(c: CrcStep, s: seq<byte>, b: byte)
    ensures CrcOf(c, s + [b]) == CrcByte(c, CrcOf(c, s), b)
  {
    CrcAppend(c, CrcByte(c, 0, SOS_MSG), s, b);
  }

  function CrcBytes(w: word): seq<byte> { [w % 256, w / 256] }

  /** Header, payload and CRC: what is stuffed between the flags. */
  function Body(c: CrcStep, m: Msg): seq<byte> { m.hdr + m.data + CrcBytes(CrcOf(c, m.hdr + m.data)) }

  function Frame(c: CrcStep, m: Msg): seq<byte> { [FLAG, SOS_MSG] + Stuff(Body(c, m)) + [FLAG] }

  function Frames(c: CrcStep, ms: seq<Msg>): seq<byte> {
    if ms == [] then [] else Frame(c, ms[0]) + Frames(c, ms[1..])
  }

  /** Between the flags neither the flag nor ETX occurs. */
  lemma {:induction false} StuffedIsClean(s: seq<byte>)
    ensures FLAG !in Stuff(s) && EXT !in Stuff(s)
  {
    if s != [] {
      StuffedIsClean(s[1..]);
    }
  }

  // ---------------------------------------------------------------------------------------------
  // The receiver
  // ---------------------------------------------------------------------------------------------

  /** Stuck: two escapes in a row were received, so that every further octet is taken as escaped. */
  datatype Escape = Plain | Escaped | Stuck

  datatype Rx = Idle | Started | Inside(got: seq<byte>, esc: Escape) | Stopping(got: seq<byte>)

  function PayloadLen(got: seq<byte>): int
    requires |got| > LEN_OFFSET
  {
    got[LEN_OFFSET]
  }

  /** One decoded octet inside a frame. */
  function Accept(got: seq<byte>, b: byte, esc: Escape, mem: bool): Rx {
    var got' := got + [b];
    if |got| < HEADER_SIZE then
      if b == FLAG then Idle
      else if |got'| < HEADER_SIZE then Inside(got', esc)
      else if PayloadLen(got') >= MAX_MSG_LEN then Idle
      else if PayloadLen(got') != 0 && !mem then Idle
      else Inside(got', esc)
    else if |got'| < HEADER_SIZE + PayloadLen(got) then Inside(got', esc)
    else if |got'| == HEADER_SIZE + PayloadLen(got) then Inside(got', Plain)
    else if |got'| == HEADER_SIZE + PayloadLen(got) + 1 then Inside(got', esc)
    else Stopping(got')
  }

  predicate CrcMatches(c: CrcStep, got: seq<byte>) {
    |got| >= 2 && var n := |got| - 2; got[n] + 256 * (got[n + 1] as int) == CrcOf(c, got[..n])
  }

  function Received(got: seq<byte>): Msg
    requires |got| >= HEADER_SIZE + 2
  {
    Msg(got[..HEADER_SIZE], got[HEADER_SIZE..|got| - 2])
  }

  /** One octet from the line; err is a line error, mem whether an allocation would succeed. */
  function Step(c: CrcStep, rx: Rx, b: byte, err: bool, mem: bool): (r: (Rx, Option<Msg>)) {
    match rx
    case Idle => (if err || b != FLAG then Idle else Started, None)
    case Started =>
      (if err then Idle
       else if b == FLAG then Started
       else if b == SOS_MSG && mem then Inside([], Plain)
       else Idle, None)
    case Inside(got, esc) =>
      (if err then Idle
       else if b == ESC then Inside(got, if esc == Plain then Escaped else Stuck)
       else if b == FLAG then Idle
       else Accept(got, if esc == Plain then b else Flip(b), if esc == Stuck then Stuck else Plain, mem), None)
    case Stopping(got) =>
      if b != FLAG then (rx, None)
      else (Idle, if |got| >= HEADER_SIZE + 2 && CrcMatches(c, got) then Some(Received(got)) else None)
  }

  /** A clean line and enough memory. */
  function Feed(c: CrcStep, rx: Rx, s: seq<byte>): (r: (Rx, seq<Msg>))
    decreases |s|
  {
    if s == [] then (rx, []) else
    var (rx1, m) := Step(c, rx, s[0], false, true);
    var (rx2, ms) := Feed(c, rx1, s[1..]);
    (rx2, if m.Some? then [m.value] + ms else ms)
  }

  lemma {:induction false} FeedConcat(c: CrcStep, rx: Rx, s: seq<byte>, t: seq<byte>)
    ensures var (rx1, ms) := Feed(c, rx, s);
            var (rx2, ns) := Feed(c, rx1, t);
            Feed(c, rx, s + t) == (rx2, ms + ns)
    decreases |s|
  {
    if s == [] {
      assert s + t == t && [] + Feed(c, rx, t).1 == Feed(c, rx, t).1;
    } else {
      assert (s + t)[1..] == s[1..] + t;
      var (rx0, m) := Step(c, rx, s[0], false, true);
      FeedConcat(c, rx0, s[1..], t);
      var (rx1, ms) := Feed(c, rx0, s[1..]);
      var (rx2, ns) := Feed(c, rx1, t);
      assert m.Some? ==> ([m.value] + ms) + ns == [m.value] + (ms + ns);
    }
  }

  /** What a frame body does to a receiver without pending escape, octet by decoded octet. */
  function AcceptAll(rx: Rx, s: seq<byte>): Rx
    decreases |s|
  {
    if s == [] || !rx.Inside? then rx else AcceptAll(Accept(rx.got, s[0], Plain, true), s[1..])
  }

  ghost predicate Unescaped(rx: Rx) { rx.Idle? || rx.Stopping? || (rx.Inside? && rx.esc == Plain) }

  lemma {:induction false} QuietUntilFlag(c: CrcStep, rx: Rx, s: seq<byte>)
    requires (rx.Idle? || rx.Stopping?) && FLAG !in s
    ensures Feed(c, rx, s) == (rx, [])
    decreases |s|
  {
    if s != [] {
      QuietUntilFlag(c, rx, s[1..]);
    }
  }

  /** Stuffing is undone: the stuffed octets act like the original ones. */
  lemma {:induction false} FeedStuffed(c: CrcStep, rx: Rx, s: seq<byte>)
    requires Unescaped(rx)
    ensures Feed(c, rx, Stuff(s)) == (AcceptAll(rx, s), []) && Unescaped(AcceptAll(rx, s))
    decreases |s|
  {
    if !rx.Inside? {
      StuffedIsClean(s);
      QuietUntilFlag(c, rx, Stuff(s));
    } else if s != [] {
      var rx1 := Accept(rx.got, s[0], Plain, true);
      FeedStuffed(c, rx1, s[1..]);
      var head := if Special(s[0]) then [ESC, Flip(s[0])] else [s[0]];
      FeedOne(c, rx, s[0]);
      FeedConcat(c, rx, head, Stuff(s[1..]));
    }
  }

  lemma FeedOne(c: CrcStep, rx: Rx, b: byte)
    requires rx.Inside? && rx.esc == Plain
    ensures Feed(c, rx, if Special(b) then [ESC, Flip(b)] else [b]) == (Accept(rx.got, b, Plain, true), [])
  {
    if Special(b) {
      assert [ESC, Flip(b)][1..] == [Flip(b)] && [Flip(b)][1..] == [];
      assert Feed(c, Inside(rx.got, Escaped), [Flip(b)]) == (Accept(rx.got, b, Plain, true), []);
    } else {
      assert [b][1..] == [];
    }
  }

  // ---------------------------------------------------------------------------------------------
  // Round trip
  // ---------------------------------------------------------------------------------------------

  /** The receiver takes the message: no header octet is 0x7e, and the payload is below 128 octets. */
  predicate Deliverable(m: Msg)
    requires WellFormed(m)
  {
    FLAG !in m.hdr && |m.data| < MAX_MSG_LEN
  }

  /** The first octets of the body, while the receiver is still inside the frame. */
  lemma {:induction false} AcceptPrefix(got: seq<byte>, s: seq<byte>, body: seq<byte>)
    requires got + s == body && |body| > HEADER_SIZE && FLAG !in body[..HEADER_SIZE]
    requires body[LEN_OFFSET] < MAX_MSG_LEN && |body| == HEADER_SIZE + body[LEN_OFFSET] + 2 && s != []
    ensures AcceptAll(Inside(got, Plain), s) == Stopping(body)
    decreases |s|
  {
    var b, got' := s[0], got + [s[0]];
    assert got' + s[1..] == body;
    assert b == body[|got|];
    assert |got| < HEADER_SIZE ==> b == body[..HEADER_SIZE][|got|];
    if |s| == 1 {
      assert got' == body;
      assert AcceptAll(Stopping(got'), s[1..]) == Stopping(body);
    } else {
      AcceptPrefix(got', s[1..], body);
    }
  }

  lemma {:induction false} AcceptRefused(got: seq<byte>, s: seq<byte>, body: seq<byte>)
    requires got + s == body && |body| > HEADER_SIZE && |got| < HEADER_SIZE
    requires FLAG !in got
    requires FLAG in body[..HEADER_SIZE] || body[LEN_OFFSET] >= MAX_MSG_LEN
    ensures AcceptAll(Inside(got, Plain), s) == Idle
    decreases |s|
  {
    var b, got' := s[0], got + [s[0]];
    assert got' + s[1..] == body;
    assert b == body[|got|];
    if b != FLAG && |got'| < HEADER_SIZE {
      AcceptRefused(got', s[1..], body);
    } else if b != FLAG {
      assert got' == body[..HEADER_SIZE];
    }
  }

  /** One frame: the message arrives exactly when it is deliverable, and the receiver is ready again. */
  lemma FrameRoundTrip(c: CrcStep, rx: Rx, m: Msg)
    requires WellFormed(m) && (rx.Idle? || rx.Started?)
    ensures var (rx1, ms) := Feed(c, rx, Frame(c, m));
            && (rx1.Idle? || rx1.Started?)
            && ms == if Deliverable(m) then [m] else []
  {
    var body := Body(c, m);
    var inside := Inside([], Plain);
    assert Frame(c, m) == [FLAG, SOS_MSG] + (Stuff(body) + [FLAG]);
    FeedConcat(c, rx, [FLAG, SOS_MSG], Stuff(body) + [FLAG]);
    FeedStart(c, rx);
    FeedConcat(c, inside, Stuff(body), [FLAG]);
    FeedStuffed(c, inside, body);
    BodyEnds(c, m);
    assert [FLAG][1..] == [];
  }

  /** The body takes a fresh receiver to the end of the frame, or, if it is refused, out of it. */
  lemma BodyEnds(c: CrcStep, m: Msg)
    requires WellFormed(m)
    ensures var end := AcceptAll(Inside([], Plain), Body(c, m));
            && end == (if Deliverable(m) then Stopping(Body(c, m)) else Idle)
            && Step(c, end, FLAG, false, true) == if Deliverable(m) then (Idle, Some(m)) else (Started, None)
  {
    var body := Body(c, m);
    assert [] + body == body && body[..HEADER_SIZE] == m.hdr;
    if Deliverable(m) {
      AcceptPrefix([], body, body);
      BodyChecks(c, m);
    } else {
      AcceptRefused([], body, body);
    }
  }

  lemma FeedStart(c: CrcStep, rx: Rx)
    requires rx.Idle? || rx.Started?
    ensures Feed(c, rx, [FLAG, SOS_MSG]) == (Inside([], Plain), [])
  {
    assert [FLAG, SOS_MSG][1..] == [SOS_MSG] && [SOS_MSG][1..] == [];
    assert Feed(c, Started, [SOS_MSG]) == (Inside([], Plain), []);
  }

  lemma BodyChecks(c: CrcStep, m: Msg)
    requires WellFormed(m)
    ensures var body := Body(c, m); |body| >= HEADER_SIZE + 2 && CrcMatches(c, body) && Received(body) == m
  {
  }

  function Delivered(ms: seq<Msg>): seq<Msg>
    requires forall m :: m in ms ==> WellFormed(m)
  {
    if ms == [] then [] else (if Deliverable(ms[0]) then [ms[0]] else []) + Delivered(ms[1..])
  }

  /**
    The link round trip.  Whatever state the receiver is in, after one flag the frames of any messages
    deliver exactly the deliverable ones, in order and unchanged, for every CRC step function.
   */
  lemma LinkRoundTrip(c: CrcStep, rx: Rx, ms: seq<Msg>)
    requires forall m :: m in ms ==> WellFormed(m)
    ensures Feed(c, rx, [FLAG] + Frames(c, ms)).1 == Feed(c, rx, [FLAG]).1 + Delivered(ms)
  {
    FeedConcat(c, rx, [FLAG], Frames(c, ms));
    assert [FLAG][1..] == [];
    FramesRoundTrip(c, Feed(c, rx, [FLAG]).0, ms);
  }

  lemma {:induction false} FramesRoundTrip(c: CrcStep, rx: Rx, ms: seq<Msg>)
    requires (rx.Idle? || rx.Started?) && forall m :: m in ms ==> WellFormed(m)
    ensures var (rx1, out) := Feed(c, rx, Frames(c, ms)); (rx1.Idle? || rx1.Started?) && out == Delivered(ms)
    decreases |ms|
  {
    if ms != [] {
      FrameRoundTrip(c, rx, ms[0]);
      FramesRoundTrip(c, Feed(c, rx, Frame(c, ms[0])).0, ms[1..]);
      FeedConcat(c, rx, Frame(c, ms[0]), Frames(c, ms[1..]));
    }
  }

  /** Messages with deliverable headers and payloads all arrive. */
  lemma {:induction false} AllDelivered(ms: seq<Msg>)
    requires forall m :: m in ms ==> WellFormed(m) && Deliverable(m)
    ensures Delivered(ms) == ms
  {
    if ms != [] {
      AllDelivered(ms[1..]);
    }
  }

  /** The frame of a payload of 126 octets hands over nothing: its length octet is the flag. */
  lemma Length126IsLost(c: CrcStep, rx: Rx, m: Msg)
    requires WellFormed(m) && |m.data| == 126 && (rx.Idle? || rx.Started?)
    ensures Feed(c, rx, Frame(c, m)).1 == []
  {
    FrameRoundTrip(c, rx, m);
  }
}
