/** The transmit and receive interrupt handlers of drivers/uart/uart.c, against module LinkSpec. */
module Uart {
  import opened Common
  import opened LinkSpec

  datatype UartState = UIdle | UHdlcStart | UProtocol | UData | UHdlcStop | UEnd
  datatype HdlcState = HIdle | HStart | HData | HEscape | HPadding | HCrc
  datatype MsgState =
    | NoState | TxHdr | TxData | TxCrcLow | TxCrcHigh | TxEnd | RxHdr | RxData | RxCrcLow | RxCrcHigh | RxEnd

  // ---------------------------------------------------------------------------------------------
  // Transmitter
  // ---------------------------------------------------------------------------------------------

  /** The stuffed octets of body from position pos on; esc: the escape octet of pos is already out. */
  ghost function Resume(body: seq<byte>, pos: int, esc: bool): seq<byte>
    requires 0 <= pos <= |body| && (esc ==> pos < |body|)
  {
    if esc then [Flip(body[pos])] + Stuff(body[pos + 1..]) else Stuff(body[pos..])
  }

  /** The octets still to be emitted while the body is sent. */
  ghost function Tail(body: seq<byte>, pos: int, esc: bool): seq<byte>
    requires 0 <= pos <= |body| && (esc ==> pos < |body|)
  {
    Resume(body, pos, esc) + [FLAG]
  }

  /** The octet sent next, and the position behind it. */
  function NextOut(b: byte, esc: bool): byte { if esc then Flip(b) else if Special(b) then ESC else b }

  predicate Finishes(b: byte, esc: bool) { esc || !Special(b) }

  lemma TailStep(body: seq<byte>, pos: int, esc: bool)
    requires 0 <= pos < |body|
    ensures var b := body[pos];
            Tail(body, pos, esc) ==
            [NextOut(b, esc)] + if Finishes(b, esc) then Tail(body, pos + 1, false) else Tail(body, pos, true)
    ensures Tail(body, |body|, false) == [FLAG]
  {
    assert body[pos..][1..] == body[pos + 1..];
    assert body[|body|..] == [];
  }

  /** The running CRC, which counts an escaped octet with its escape, will end up as total. */
  ghost predicate CrcOnTrack(c: CrcStep, payload: seq<byte>, total: word, pos: int, esc: bool, crc: word) {
    0 <= pos < |payload| && CrcFrom(c, crc, payload[if esc then pos + 1 else pos..]) == total
  }

  lemma CrcAdvances(c: CrcStep, payload: seq<byte>, total: word, pos: int, esc: bool, crc: word)
    requires CrcOnTrack(c, payload, total, pos, esc, crc)
    ensures var crc' := if esc then crc else CrcByte(c, crc, payload[pos]);
            && CrcOnTrack(c, payload, total, pos, true, crc')
            && (pos + 1 < |payload| ==> CrcOnTrack(c, payload, total, pos + 1, false, crc'))
            && (pos + 1 == |payload| ==> crc' == total)
  {
  }

  /** Header and payload, and their CRC behind them, make the body. */
  ghost predicate LoadedAs(m: Msg, payload: seq<byte>, total: word, body: seq<byte>) {
    && |m.hdr| == HEADER_SIZE && |m.data| == m.hdr[LEN_OFFSET]
    && payload == m.hdr + m.data && body == payload + [total % 256, total / 256]
  }

  lemma LoadedSizes(m: Msg, payload: seq<byte>, total: word, body: seq<byte>)
    requires LoadedAs(m, payload, total, body)
    ensures |m.hdr| == HEADER_SIZE && |payload| == HEADER_SIZE + |m.data| && |body| == |payload| + 2 && |m.data| < 256
    ensures body[|payload|] == total % 256 && body[|payload| + 1] == total / 256
  {
  }

  lemma LoadedAt(m: Msg, payload: seq<byte>, total: word, body: seq<byte>, k: int)
    requires LoadedAs(m, payload, total, body) && 0 <= k < |payload|
    ensures |m.hdr| == HEADER_SIZE && |payload| == HEADER_SIZE + |m.data| && |body| == |payload| + 2
    ensures body[k] == payload[k]
    ensures body[k] == if k < HEADER_SIZE then m.hdr[k] else m.data[k - HEADER_SIZE]
  {
  }

  /** Escape state and CRC are right for the octet at pos of the body. */
  ghost predicate OnTrack(c: CrcStep, payload: seq<byte>, total: word, body: seq<byte>, pos: int,
                          hdlc: HdlcState, saved: HdlcState, crc: word) {
    var esc := hdlc == HEscape;
    && 0 <= pos < |body| && (esc ==> Special(body[pos]))
    && var phase := if pos < |payload| then HData else HCrc;
    && (if esc then saved == phase else hdlc == phase)
    && (if pos < |payload| then CrcOnTrack(c, payload, total, pos, esc, crc) else crc == total)
  }

  /** What uart_send_byte makes of the escape state and the CRC for an octet b of the payload. */
  ghost predicate ByteSent(c: CrcStep, b: byte, hdlc: HdlcState, saved: HdlcState, crc: word,
                           hdlc': HdlcState, saved': HdlcState, crc': word) {
    && crc' == (if hdlc == HData then CrcByte(c, crc, b) else crc)
    && if hdlc == HEscape then hdlc' == saved && saved' == saved
       else if Special(b) then hdlc' == HEscape && saved' == hdlc
       else hdlc' == hdlc && saved' == saved
  }

  /** After an octet of the payload; the next phase starts with hdlc HCrc. */
  lemma StaysOnTrack(c: CrcStep, payload: seq<byte>, total: word, body: seq<byte>, pos: int,
                     hdlc: HdlcState, saved: HdlcState, crc: word, hdlc': HdlcState, saved': HdlcState, crc': word)
    requires OnTrack(c, payload, total, body, pos, hdlc, saved, crc) && pos < |payload| && |body| == |payload| + 2
    requires body[pos] == payload[pos] && ByteSent(c, body[pos], hdlc, saved, crc, hdlc', saved', crc')
    ensures var done := Finishes(body[pos], hdlc == HEscape);
            && (hdlc' == HEscape <==> !done)
            && (!done ==> OnTrack(c, payload, total, body, pos, hdlc', saved', crc'))
            && (done && pos + 1 < |payload| ==> OnTrack(c, payload, total, body, pos + 1, hdlc', saved', crc'))
            && (done && pos + 1 == |payload| ==> OnTrack(c, payload, total, body, pos + 1, HCrc, saved', crc'))
  {
    hide CrcOnTrack, CrcByte;
    CrcAdvances(c, payload, total, pos, hdlc == HEscape, crc);
  }

  lemma OnTrackMeans(c: CrcStep, payload: seq<byte>, total: word, body: seq<byte>, pos: int,
                     hdlc: HdlcState, saved: HdlcState, crc: word)
    requires OnTrack(c, payload, total, body, pos, hdlc, saved, crc)
    ensures 0 <= pos < |body| && (hdlc == HEscape ==> saved != HEscape)
  {
  }

  class Transmitter {
    const crcTable: CrcStep
    var state: UartState
    var msgState: MsgState
    var hdlc: HdlcState
    var saved: HdlcState
    var msg: Msg
    var crc: word
    var idx: int
    /** Header and payload; their CRC; and both together, as they will be stuffed. */
    ghost var payload: seq<byte>
    ghost var total: word
    ghost var body: seq<byte>
    /** The position in the body that is sent next. */
    ghost var pos: int

    ghost predicate Escaping() reads this { hdlc == HEscape }

    /** Which field holds the octet at pos. */
    ghost predicate PosIs()
      reads this
    {
      && (msgState == TxHdr ==> 0 <= idx < HEADER_SIZE && pos == idx)
      && (msgState == TxData ==> 0 <= idx < |msg.data| && pos == HEADER_SIZE + idx)
      && (msgState == TxCrcLow ==> pos == |payload|)
      && (msgState == TxCrcHigh ==> pos == |payload| + 1)
      && (msgState == TxHdr || msgState == TxData || msgState == TxCrcLow || msgState == TxCrcHigh)
    }

    /** The fields while the body is sent. */
    ghost predicate Sending()
      reads this
    {
      LoadedAs(msg, payload, total, body) && PosIs() && OnTrack(crcTable, payload, total, body, pos, hdlc, saved, crc)
    }

    ghost predicate Valid()
      reads this
    {
      match state
      case UHdlcStart => LoadedAs(msg, payload, total, body) && idx == 0 && total == CrcOf(crcTable, payload)
      case UProtocol =>
        LoadedAs(msg, payload, total, body) && idx == 0 && hdlc == HData && total == CrcFrom(crcTable, crc, payload)
      case UData => Sending()
      case _ => true
    }

    /** The octets that the coming interrupts will emit. */
    ghost function Remaining(): seq<byte>
      requires Valid()
      reads this
    {
      match state
      case UHdlcStart => [SOS_MSG] + (Stuff(body) + [FLAG])
      case UProtocol => Stuff(body) + [FLAG]
      case UData => Tail(body, pos, Escaping())
      case UHdlcStop => [FLAG]
      case _ => []
    }

    constructor (c: CrcStep)
      ensures Valid() && state == UIdle && crcTable == c
    {
      crcTable := c;
      state, msgState, hdlc, saved := UIdle, NoState, HIdle, HIdle;
      msg, crc, idx := Msg([], []), 0, 0;
    }

    /** uart_startTransceiverTx; the first flag is put on the line at once. */
    method StartTx(m: Msg) returns (out: Option<byte>)
      requires Valid() && WellFormed(m)
      modifies this
      ensures Valid()
      ensures out.Some? <==> old(state) == UIdle
      ensures out.Some? ==> Frame(crcTable, m) == [out.value] + Remaining()
      ensures out.None? ==> unchanged(this)
    {
      if state != UIdle {
        return None;
      }
      msg, idx := m, 0;
      state, hdlc := UHdlcStart, HStart;
      payload := m.hdr + m.data;
      total := CrcOf(crcTable, payload);
      body := payload + [total % 256, total / 256];
      assert Frame(crcTable, m) == [FLAG] + ([SOS_MSG] + (Stuff(body) + [FLAG]));
      return Some(FLAG);
    }

    /** uart_send_byte for the octet b; the index moves on unless only the escape octet went out. */
    method SendByte(b: byte) returns (out: byte)
      requires hdlc == HEscape ==> saved != HEscape
      modifies this`crc, this`hdlc, this`saved, this`idx
      ensures crc == if old(hdlc) == HData then CrcByte(crcTable, old(crc), b) else old(crc)
      ensures out == NextOut(b, old(Escaping()))
      ensures ByteSent(crcTable, b, old(hdlc), old(saved), old(crc), hdlc, saved, crc)
      ensures old(hdlc) == HEscape ==> out == Flip(b) && hdlc == old(saved) && idx == (old(idx) + 1) % 256
      ensures old(hdlc) != HEscape && Special(b) ==>
        out == ESC && hdlc == HEscape && saved == old(hdlc) && idx == old(idx)
      ensures old(hdlc) != HEscape && !Special(b) ==> out == b && hdlc == old(hdlc) && idx == (old(idx) + 1) % 256
    {
      if hdlc == HData {
        crc := CrcByte(crcTable, crc, b);
      }
      if hdlc == HEscape {
        out := Flip(b);
        hdlc := saved;
      } else if Special(b) {
        saved, hdlc := hdlc, HEscape;
        return ESC;
      } else {
        out := b;
      }
      idx := (idx + 1) % 256;
    }

    /** Case SOS_MSG_TX_HDR. */
    method SendHeader() returns (out: byte)
      requires Valid() && state == UData && msgState == TxHdr
      modifies this`state, this`msgState, this`hdlc, this`saved, this`crc, this`idx, this`pos
      ensures Valid() && (state == UData || state == UHdlcStop)
      ensures old(Remaining()) == [out] + Remaining()
    {
      hide Tail, OnTrack, ByteSent, LoadedAs, NextOut, Finishes;
      LoadedSizes(msg, payload, total, body);
      LoadedAt(msg, payload, total, body, pos);
      TailStep(body, pos, Escaping());
      ghost var hdlc0, saved0, crc0, pos0 := hdlc, saved, crc, pos;
      OnTrackMeans(crcTable, payload, total, body, pos, hdlc, saved, crc);
      out := SendByte(msg.hdr[idx]);
      StaysOnTrack(crcTable, payload, total, body, pos0, hdlc0, saved0, crc0, hdlc, saved, crc);
      assert idx == if Escaping() then old(idx) else old(idx) + 1;
      pos := if Escaping() then pos else pos + 1;
      if idx == HEADER_SIZE && hdlc != HEscape {
        idx := 0;
        if |msg.data| != 0 {
          msgState := TxData;
        } else {
          hdlc, msgState := HCrc, TxCrcLow;
        }
      }
    }

    /** Case SOS_MSG_TX_DATA. */
    method SendData() returns (out: byte)
      requires Valid() && state == UData && msgState == TxData
      modifies this`state, this`msgState, this`hdlc, this`saved, this`crc, this`idx, this`pos
      ensures Valid() && (state == UData || state == UHdlcStop)
      ensures old(Remaining()) == [out] + Remaining()
    {
      hide Tail, OnTrack, ByteSent, LoadedAs, NextOut, Finishes;
      LoadedSizes(msg, payload, total, body);
      LoadedAt(msg, payload, total, body, pos);
      TailStep(body, pos, Escaping());
      ghost var hdlc0, saved0, crc0, pos0 := hdlc, saved, crc, pos;
      OnTrackMeans(crcTable, payload, total, body, pos, hdlc, saved, crc);
      out := SendByte(msg.data[idx]);
      StaysOnTrack(crcTable, payload, total, body, pos0, hdlc0, saved0, crc0, hdlc, saved, crc);
      assert idx == if Escaping() then old(idx) else old(idx) + 1;
      pos := if Escaping() then pos else pos + 1;
      if idx == |msg.data| && hdlc != HEscape {
        hdlc, msgState := HCrc, TxCrcLow;
      }
    }

    /** Case SOS_MSG_TX_CRC_LOW. */
    method SendCrcLow() returns (out: byte)
      requires Valid() && state == UData && msgState == TxCrcLow
      modifies this`state, this`msgState, this`hdlc, this`saved, this`crc, this`idx, this`pos
      ensures Valid() && (state == UData || state == UHdlcStop)
      ensures old(Remaining()) == [out] + Remaining()
    {
      hide Tail, CrcFrom, Stuff, CrcOnTrack, Flip, CrcByte, LoadedAs, NextOut;
      LoadedSizes(msg, payload, total, body);
      ghost var esc := Escaping();
      TailStep(body, pos, esc);
      ghost var b := body[pos];
      assert b == crc % 256;
      out := SendByte(crc % 256);
      pos := if Finishes(b, esc) then pos + 1 else pos;
      if hdlc != HEscape {
        msgState := TxCrcHigh;
      }
    }

    /** Case SOS_MSG_TX_CRC_HIGH. */
    method SendCrcHigh() returns (out: byte)
      requires Valid() && state == UData && msgState == TxCrcHigh
      modifies this`state, this`msgState, this`hdlc, this`saved, this`crc, this`idx, this`pos
      ensures Valid() && (state == UData || state == UHdlcStop)
      ensures old(Remaining()) == [out] + Remaining()
    {
      hide Tail, CrcFrom, Stuff, CrcOnTrack, Flip, CrcByte, LoadedAs, NextOut;
      LoadedSizes(msg, payload, total, body);
      ghost var esc := Escaping();
      TailStep(body, pos, esc);
      ghost var b := body[pos];
      assert b == crc / 256;
      out := SendByte(crc / 256);
      pos := if Finishes(b, esc) then pos + 1 else pos;
      if hdlc != HEscape {
        msgState, state := TxEnd, UHdlcStop;
      }
    }

    /** The DATA case of the interrupt: one octet of the stuffed body. */
    method SendBody() returns (out: byte)
      requires Valid() && state == UData
      modifies this
      ensures Valid() && (state == UData || state == UHdlcStop)
      ensures old(Remaining()) == [out] + Remaining()
    {
      match msgState {
        case TxHdr => out := SendHeader();
        case TxData => out := SendData();
        case TxCrcLow => out := SendCrcLow();
        case TxCrcHigh => out := SendCrcHigh();
      }
    }

    /** uart_send_interrupt: emits the next octet, or ends the transmission when all are out. */
    method SendInterrupt() returns (out: Option<byte>)
      requires Valid()
      modifies this
      ensures Valid()
      ensures old(Remaining()) != [] ==> out.Some? && old(Remaining()) == [out.value] + Remaining() && state != UIdle
      ensures old(Remaining()) == [] ==> out.None? && state == UIdle
    {
      match state {
        case UHdlcStart =>
          out := Some(SOS_MSG);
          hdlc, state := HData, UProtocol;
          crc := CrcByte(crcTable, 0, SOS_MSG);
        case UProtocol =>
          state, msgState := UData, TxHdr;
          pos := 0;
          assert payload[0..] == payload && body[0..] == body;
          var b := SendBody();
          out := Some(b);
        case UData =>
          var b := SendBody();
          out := Some(b);
        case UHdlcStop =>
          out := Some(FLAG);
          state, msgState := UEnd, NoState;
        case UEnd =>
          out := None;
          state, hdlc := UIdle, HIdle;
        case UIdle =>
          out := None;
          state, hdlc := UIdle, HIdle;
      }
    }
  }

  // ---------------------------------------------------------------------------------------------
  // Receiver
  // ---------------------------------------------------------------------------------------------

  class Receiver {
    const crcTable: CrcStep
    var state: UartState
    var msgState: MsgState
    var hdlc: HdlcState
    var saved: HdlcState
    /** The header octets of msgHdr, the payload buffer, and the expected payload length. */
    var hdr: seq<byte>
    var buff: seq<byte>
    var msgLen: int
    var crc: word
    var crcIn: int
    var idx: int
    /** The octets decoded in this frame, and the messages handed to handle_incoming_msg. */
    ghost var got: seq<byte>
    var delivered: seq<Msg>

    /** Header and payload received so far are the decoded octets. */
    ghost predicate Headed()
      reads this
    {
      && |hdr| == HEADER_SIZE <= |got| && got[..HEADER_SIZE] == hdr && msgLen == hdr[LEN_OFFSET] < MAX_MSG_LEN
      && (msgLen != 0 ==> |buff| == msgLen)
    }

    /** The complete payload is in the buffer. */
    ghost predicate PayloadDone()
      reads this
    {
      Headed() && HEADER_SIZE + msgLen <= |got| &&
      (msgLen != 0 ==> got[HEADER_SIZE..HEADER_SIZE + msgLen] == buff)
    }

    ghost predicate Receiving()
      reads this
    {
      match msgState
      case RxHdr => |hdr| == HEADER_SIZE && 0 <= idx < HEADER_SIZE && got == hdr[..idx] && crc == CrcOf(crcTable, got)
      case RxData =>
        && Headed() && 0 <= idx < msgLen && |got| == HEADER_SIZE + idx && got[HEADER_SIZE..] == buff[..idx]
        && crc == CrcOf(crcTable, got)
      case RxCrcLow => PayloadDone() && |got| == HEADER_SIZE + msgLen && crc == CrcOf(crcTable, got)
      case RxCrcHigh =>
        && PayloadDone() && |got| == HEADER_SIZE + msgLen + 1 && crcIn == got[|got| - 1]
        && crc == CrcOf(crcTable, got[..HEADER_SIZE + msgLen])
      case _ => false
    }

    ghost predicate Valid()
      reads this
    {
      && (state == UData ==> Receiving())
      && (state == UHdlcStop ==>
            && PayloadDone() && |got| == HEADER_SIZE + msgLen + 2
            && crcIn == got[|got| - 2] + 256 * (got[|got| - 1] as int)
            && crc == CrcOf(crcTable, got[..HEADER_SIZE + msgLen]))
      && state != UEnd
    }

    ghost function EscapeView(): Escape
      reads this
    {
      if hdlc != HEscape then Plain else if saved != HEscape then Escaped else Stuck
    }

    /** The automaton state that the fields stand for. */
    ghost function View(): Rx
      reads this
    {
      match state
      case UIdle => Idle
      case UHdlcStart => Started
      case UProtocol => Started
      case UData => Inside(got, EscapeView())
      case _ => Stopping(got)
    }

    constructor (c: CrcStep)
      ensures Valid() && crcTable == c && View() == Idle && delivered == []
    {
      crcTable := c;
      state, msgState, hdlc, saved := UIdle, NoState, HIdle, HIdle;
      hdr, buff, msgLen, crc, crcIn, idx := [], [], 0, 0, 0, 0;
      delivered := [];
    }

    /** uart_reset_recv. */
    method ResetRecv()
      modifies this`state, this`msgState, this`hdlc
      ensures Valid() && View() == Idle
    {
      state, msgState, hdlc := UIdle, NoState, HIdle;
    }

    /** Cases UART_HDLC_START and UART_PROTOCOL. */
    method RecvStart(b: byte, err: bool, mem: bool)
      requires Valid() && (state == UHdlcStart || state == UProtocol) && (!err ==> b != RAW)
      modifies this
      ensures Valid() && View() == Step(crcTable, old(View()), b, err, mem).0 && delivered == old(delivered)
    {
      hide CrcOf, CrcByte, Accept;
      CrcOfNothing(crcTable);
      if err {
        ResetRecv();
      } else if b == FLAG {
        state := UHdlcStart;
      } else if b == SOS_MSG && mem {
        msgState, crc, idx := RxHdr, CrcByte(crcTable, 0, b), 0;
        state, hdlc := UData, HData;
        if |hdr| != HEADER_SIZE {
          hdr := seq(HEADER_SIZE, _ => 0);
        }
        got := [];
      } else {
        ResetRecv();
      }
    }

    /** Case SOS_MSG_RX_HDR with the decoded octet b. */
    method RecvHeader(b: byte, mem: bool)
      requires Valid() && state == UData && msgState == RxHdr
      modifies this
      ensures Valid() && View() == Accept(old(got), b, old(EscapeView()), mem) && delivered == old(delivered)
    {
      hide CrcOf, CrcByte;
      CrcOfAppend(crcTable, got, b);
      if b == FLAG {
        ResetRecv();
        return;
      }
      hdr := hdr[idx := b];
      idx := idx + 1;
      crc := CrcByte(crcTable, crc, b);
      got := got + [b];
      assert got == hdr[..idx];
      if idx == HEADER_SIZE {
        assert hdr[..idx] == hdr;
        HeaderComplete(mem);
      }
    }

    /** The header is complete: the payload length decides what comes next. */
    method HeaderComplete(mem: bool)
      requires state == UData && |hdr| == HEADER_SIZE && got == hdr && crc == CrcOf(crcTable, got)
      modifies this
      ensures Valid() && delivered == old(delivered)
      ensures hdr == old(hdr)
      ensures View() == if hdr[LEN_OFFSET] >= MAX_MSG_LEN || (hdr[LEN_OFFSET] != 0 && !mem) then Idle
                        else Inside(old(got), old(EscapeView()))
    {
      hide CrcOf;
      msgLen := hdr[LEN_OFFSET];
      if msgLen < MAX_MSG_LEN {
        if msgLen != 0 {
          if mem {
            buff := seq(msgLen, _ => 0);
            msgState, idx := RxData, 0;
          } else {
            ResetRecv();
          }
        } else {
          msgState := RxCrcLow;
        }
      } else {
        ResetRecv();
      }
    }

    /** Case SOS_MSG_RX_DATA with the decoded octet b. */
    method RecvData(b: byte, mem: bool)
      requires Valid() && state == UData && msgState == RxData
      modifies this
      ensures Valid() && View() == Accept(old(got), b, old(EscapeView()), mem) && delivered == old(delivered)
    {
      hide CrcOf, CrcByte;
      CrcOfAppend(crcTable, got, b);
      buff := buff[idx := b];
      idx := idx + 1;
      crc := CrcByte(crcTable, crc, b);
      got := got + [b];
      if idx == msgLen {
        hdlc, msgState := HCrc, RxCrcLow;
      }
    }

    /** Cases SOS_MSG_RX_CRC_LOW and SOS_MSG_RX_CRC_HIGH with the decoded octet b. */
    method RecvCrc(b: byte, mem: bool)
      requires Valid() && state == UData && (msgState == RxCrcLow || msgState == RxCrcHigh)
      modifies this
      ensures Valid() && View() == Accept(old(got), b, old(EscapeView()), mem) && delivered == old(delivered)
    {
      hide CrcOf;
      assert (got + [b])[..HEADER_SIZE + msgLen] == got[..HEADER_SIZE + msgLen];
      assert msgState == RxCrcLow ==> got[..HEADER_SIZE + msgLen] == got;
      got := got + [b];
      if msgState == RxCrcLow {
        crcIn := b;
        msgState := RxCrcHigh;
      } else {
        crcIn := crcIn + 256 * (b as int);
        hdlc, msgState, state := HPadding, RxEnd, UHdlcStop;
      }
    }

    /** Case UART_DATA: undo the stuffing, then dispatch on the part of the frame. */
    method RecvBody(b: byte, err: bool, mem: bool)
      requires Valid() && state == UData
      modifies this
      ensures Valid() && View() == Step(crcTable, old(View()), b, err, mem).0 && delivered == old(delivered)
    {
      hide CrcOf, Accept;
      if err {
        ResetRecv();
        return;
      }
      if b == ESC {
        saved := hdlc;
        hdlc := HEscape;
        return;
      }
      if b == FLAG {
        ResetRecv();
        return;
      }
      var c := b;
      if hdlc == HEscape {
        c := Flip(b);
        hdlc := saved;
      }
      if msgState == RxHdr {
        RecvHeader(c, mem);
      } else if msgState == RxData {
        RecvData(c, mem);
      } else {
        RecvCrc(c, mem);
      }
    }

    /** Case UART_HDLC_STOP. */
    method RecvStop(b: byte)
      requires Valid() && state == UHdlcStop
      modifies this
      ensures Valid() && View() == Step(crcTable, old(View()), b, false, true).0
      ensures delivered == old(delivered) + Handed(Step(crcTable, old(View()), b, false, true).1)
    {
      hide CrcOf;
      if b == FLAG {
        assert got[..|got| - 2] == got[..HEADER_SIZE + msgLen];
        if crcIn == crc {
          delivered := delivered + [Msg(hdr, if msgLen == 0 then [] else buff)];
        }
        state, msgState, hdlc := UIdle, NoState, HIdle;
      }
    }

    /** uart_recv_interrupt; raw frames are outside of the model. */
    method RecvInterrupt(b: byte, err: bool, mem: bool)
      requires Valid() && (View() == Started && !err ==> b != RAW)
      modifies this
      ensures Valid() && View() == Step(crcTable, old(View()), b, err, mem).0
      ensures delivered == old(delivered) + Handed(Step(crcTable, old(View()), b, err, mem).1)
    {
      match state {
        case UIdle =>
          if !err && b == FLAG {
            state := UHdlcStart;
          }
        case UHdlcStart => RecvStart(b, err, mem);
        case UProtocol => RecvStart(b, err, mem);
        case UData => RecvBody(b, err, mem);
        case UHdlcStop => RecvStop(b);
      }
    }
  }

  ghost function Handed(m: Option<Msg>): seq<Msg> { if m.Some? then [m.value] else [] }

  /** The octets to come hold one flag, at their end, and a receiver that awaits the protocol gets it. */
  ghost predicate OnLine(rx: Rx, rest: seq<byte>) {
    && (rest != [] ==> FLAG !in rest[..|rest| - 1] && rest[|rest| - 1] == FLAG)
    && (rx.Started? && rest != [] ==> rest[0] == SOS_MSG)
  }

  lemma FrameOnLine(c: CrcStep, rx: Rx, m: Msg)
    requires (rx.Idle? || rx.Started?) && WellFormed(m)
    ensures Frame(c, m)[0] == FLAG && OnLine(Step(c, rx, FLAG, false, true).0, Frame(c, m)[1..])
  {
    var body := Stuff(Body(c, m));
    StuffedIsClean(Body(c, m));
    var rest := Frame(c, m)[1..];
    assert rest == [SOS_MSG] + body + [FLAG];
    assert rest[..|rest| - 1] == [SOS_MSG] + body;
  }

  lemma OnLineStep(c: CrcStep, rx: Rx, rest: seq<byte>)
    requires rest != [] && OnLine(rx, rest)
    ensures OnLine(Step(c, rx, rest[0], false, true).0, rest[1..])
    ensures rx.Started? ==> rest[0] != RAW
  {
  }

  /** What is on the line completes the messages delivered so far to those of goal. */
  ghost predicate Completes(c: CrcStep, rx: Rx, delivered: seq<Msg>, line: seq<byte>, before: seq<Msg>,
                            goal: (Rx, seq<Msg>)) {
    Feed(c, rx, line).0 == goal.0 && delivered + Feed(c, rx, line).1 == before + goal.1
  }

  lemma CompletesStep(c: CrcStep, rx: Rx, delivered: seq<Msg>, b: byte, rest: seq<byte>,
                      before: seq<Msg>, goal: (Rx, seq<Msg>))
    requires Completes(c, rx, delivered, [b] + rest, before, goal)
    ensures var (rx', m) := Step(c, rx, b, false, true);
            Completes(c, rx', delivered + Handed(m), rest, before, goal)
  {
  }

  lemma CompletesEnd(c: CrcStep, rx: Rx, delivered: seq<Msg>, before: seq<Msg>, goal: (Rx, seq<Msg>))
    ensures Completes(c, rx, delivered, [], before, goal) <==> (rx == goal.0 && delivered == before + goal.1)
  {
  }

  /** The octet b, which the transmitter has emitted, is taken by the receiver, and the next one emitted. */
  method Exchange(tx: Transmitter, rx: Receiver, b: byte, ghost before: seq<Msg>, ghost goal: (Rx, seq<Msg>))
    returns (out: Option<byte>)
    requires tx.Valid() && rx.Valid() && rx.crcTable == tx.crcTable && InTransfer(rx, b, tx.Remaining(), before, goal)
    modifies tx, rx
    ensures tx.Valid() && rx.Valid()
    ensures out.Some? ==> InTransfer(rx, out.value, tx.Remaining(), before, goal)
    ensures out.Some? ==> |tx.Remaining()| < |old(tx.Remaining())|
    ensures out.None? ==> tx.state == UIdle && rx.View() == goal.0 && rx.delivered == before + goal.1
  {
    ghost var c, rest := tx.crcTable, tx.Remaining();
    CompletesStep(c, rx.View(), rx.delivered, b, rest, before, goal);
    hide Step, Feed, Completes, OnLine;
    hide Transmitter.Valid, Transmitter.Remaining, Receiver.Valid, Receiver.View;
    rx.RecvInterrupt(b, false, true);
    if rest != [] {
      OnLineStep(c, rx.View(), rest);
    } else {
      CompletesEnd(c, rx.View(), rx.delivered, before, goal);
    }
    out := tx.SendInterrupt();
  }

  /** Octet b is on the line, rest is to follow, and that completes the messages of goal. */
  ghost predicate InTransfer(rx: Receiver, b: byte, rest: seq<byte>, before: seq<Msg>, goal: (Rx, seq<Msg>))
    reads rx
  {
    && OnLine(Step(rx.crcTable, rx.View(), b, false, true).0, rest)
    && (rx.View().Started? ==> b != RAW)
    && Completes(rx.crcTable, rx.View(), rx.delivered, [b] + rest, before, goal)
  }

  /**
    One message over a clean line, the handlers of the two ends taking turns: it is delivered, unchanged
    and once, exactly when it is deliverable, and both ends are ready for the next message.
   */
  method Transfer(tx: Transmitter, rx: Receiver, m: Msg)
    requires tx.Valid() && tx.state == UIdle && WellFormed(m)
    requires rx.Valid() && (rx.View().Idle? || rx.View().Started?) && rx.crcTable == tx.crcTable
    modifies tx, rx
    ensures tx.Valid() && tx.state == UIdle && rx.Valid() && (rx.View().Idle? || rx.View().Started?)
    ensures rx.delivered == old(rx.delivered) + if Deliverable(m) then [m] else []
  {
    FrameRoundTrip(tx.crcTable, rx.View(), m);
    FrameOnLine(tx.crcTable, rx.View(), m);
    ghost var goal := Feed(tx.crcTable, rx.View(), Frame(tx.crcTable, m));
    hide Frame, Step, Feed, OnLine, Deliverable;
    hide Transmitter.Valid, Transmitter.Remaining, Receiver.Valid, Receiver.View;
    var out := tx.StartTx(m);
    assert Frame(tx.crcTable, m)[1..] == tx.Remaining();
    assert InTransfer(rx, out.value, tx.Remaining(), rx.delivered, goal);
    hide InTransfer;
    while out.Some?
      invariant tx.Valid() && rx.Valid()
      invariant out.Some? ==> InTransfer(rx, out.value, tx.Remaining(), old(rx.delivered), goal)
      invariant out.None? ==> tx.state == UIdle && rx.View() == goal.0 && rx.delivered == old(rx.delivered) + goal.1
      decreases if out.Some? then 1 + |tx.Remaining()| else 0
    {
      out := Exchange(tx, rx, out.value, old(rx.delivered), goal);
    }
  }
}
