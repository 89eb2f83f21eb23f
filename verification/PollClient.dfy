/** The polling client of `dlms_client.c` as it updates its structure in place, proved against `PollSession`. */
module PollClient {
  import opened Bytes
  import Buffers
  import opened Hdlc
  import opened HdlcParser
  import Receiver
  import opened Association
  import opened Axdr
  import AxdrDecoder
  import opened Readings
  import opened PollSession
  import opened PollReadings
  import Obis

  const APDU_SIZE := 256

  /** The octets of a command on the wire. */
  function WireOf(r: Route, c: Command): seq<byte> {
    match c
    case Snrm => Wire(Addressed(r), CTRL_SNRM, SNRM_INFO)
    case Iframe(sendSeq, recvSeq, apdu) => WireIframe(r, sendSeq, recvSeq, apdu)
    case Disc => Wire(Addressed(r), CTRL_DISC, [])
  }

  lemma IframeControl(sendSeq: byte, recvSeq: byte)
    requires sendSeq < 8 && recvSeq < 8
    ensures Val(IControl(sendSeq, recvSeq)) == 32 * Val(recvSeq) + 16 + 2 * Val(sendSeq)
  {
  }

  /** The frames of the three commands: 93 with the negotiation parameters, 53 alone, and for a request the poll bit
      between N(R) and N(S) and the LLC header E6 E6 00. */
  lemma CommandOctets(r: Route, sendSeq: byte, recvSeq: byte, apdu: seq<byte>)
    requires sendSeq < 8 && recvSeq < 8
    ensures WireOf(r, Snrm) == Wire(Addressed(r), 0x93,
      [0x81, 0x80, 0x12, 0x05, 0x01, 0x80, 0x06, 0x01, 0x80, 0x07, 0x04, 0x00, 0x00, 0x00, 0x01, 0x08, 0x04, 0x00, 0x00,
       0x00, 0x01])
    ensures WireOf(r, Disc) == Wire(Addressed(r), 0x53, [])
    ensures exists control: byte ::
      Val(control) == 32 * Val(recvSeq) + 16 + 2 * Val(sendSeq)
      && WireOf(r, Iframe(sendSeq, recvSeq, apdu)) == Wire(Addressed(r), control, [0xE6, 0xE6, 0x00] + apdu)
  {
    hide Wire, Addressed;
    IframeControl(sendSeq, recvSeq);
  }

  function WiresOf(r: Route, t: seq<Exchange>): (w: seq<seq<byte>>)
    ensures |w| == |t|
  {
    if t == [] then [] else WiresOf(r, t[..|t| - 1]) + [WireOf(r, t[|t| - 1].sent)]
  }

  /** One more exchange, and its command on the wire. */
  ghost predicate SentOne(r: Route, t: seq<Exchange>, after: seq<Exchange>, w: seq<seq<byte>>,
      wireAfter: seq<seq<byte>>) {
    |after| == |t| + 1 && t <= after && wireAfter == w + [WireOf(r, after[|t|].sent)]
  }

  lemma WiresSnoc(r: Route, t: seq<Exchange>, x: Exchange)
    ensures WiresOf(r, t + [x]) == WiresOf(r, t) + [WireOf(r, x.sent)]
  {
    assert (t + [x])[..|t|] == t;
  }

  lemma SentOnAny(r: Route, t: seq<Exchange>, after: seq<Exchange>, w: seq<seq<byte>>, wireAfter: seq<seq<byte>>)
    requires SentOne(r, t, after, w, wireAfter)
    ensures forall base :: w == base + WiresOf(r, t) ==> wireAfter == base + WiresOf(r, after)
  {
    hide WireOf, WiresOf;
    var x := after[|t|];
    assert after == t + [x];
    WiresSnoc(r, t, x);
    forall base | w == base + WiresOf(r, t) ensures wireAfter == base + WiresOf(r, after) {
      assert base + (WiresOf(r, t) + [WireOf(r, x.sent)]) == base + WiresOf(r, t) + [WireOf(r, x.sent)];
    }
  }

  predicate InBounds(chunks: seq<seq<byte>>) { forall k :: 0 <= k < |chunks| ==> |chunks[k]| <= Receiver.READ_SIZE }

  /** No read returns more than the receive call asks for. */
  ghost predicate Readable(line: Line) {
    forall k: nat :: InBounds(line.arrivals(k))
  }

  /** `handle_read_response_sn` on a reading that shows its entry only. */
  method HandleReadResponse(apdu: seq<byte>, reading: ReadingBuffer, ghost e: Entry) returns (result: int)
    requires reading.Snapshot() == Unanswered(e)
    modifies reading
    ensures reading.Snapshot() == FromResponse(e, apdu)
    ensures result == if reading.valid then 0 else -1
  {
    hide ParseValue, AxdrDecoder.Store;
    if |apdu| < 3 || apdu[0] != 0x0C || apdu[1] != 0x01 { return -1; }
    if apdu[2] != 0x00 { return -1; }
    var consumed, _, _ := AxdrDecoder.ParseInto(apdu[3..], reading);
    if consumed < 0 { return -1; }
    reading.valid := true;
    return 0;
  }

  lemma CycleIs(s: Poller, password: Option<seq<byte>>, line: Line, p: Progress, up: bool)
    requires s.Valid() && (p, up) == Link(START, line, MAX_RETRIES)
    ensures Cycle(s, password, line) ==
      if !up then Outcome(s.(errors := Bump(s.errors)), p, false)
      else
        var (q, slots) := Talk(p, line, password, s.entries, s.slots);
        Outcome(s.(slots := slots, polls := Bump(s.polls)), q, true)
  {
    hide Link, Talk;
  }

  lemma AarqFits(password: Option<seq<byte>>)
    requires password.Some? ==> |password.value| <= MAX_PASSWORD_LEN
    ensures 2 + ContentLen(password) <= APDU_SIZE
    ensures |Aarq(password)| <= APDU_SIZE
  {
    hide Low8;
  }

  lemma CommandWires(r: Route)
    ensures WireOf(r, Snrm) == Wire(Addressed(r), CTRL_SNRM, SNRM_INFO)
      && WireOf(r, Disc) == Wire(Addressed(r), CTRL_DISC, [])
    ensures WiresOf(r, []) == []
  {
  }

  lemma LinkStep(p: Progress, line: Line, tries: nat)
    ensures Link(p, line, tries) ==
      if tries == 0 then (p, false)
      else
        var q, reply := Say(p, line, ConnectingHdlc, Snrm), Heard(line, |p.trace|);
        if Confirms(reply) then (q, true) else if Refuses(reply) then (q, false) else Link(q, line, tries - 1)
  {
    hide Heard, IsUa;
  }

  lemma ReadAllStep(p: Progress, line: Line, entries: seq<Entry>, i: nat, slots: seq<Reading>)
    requires i <= |entries| == |slots|
    ensures ReadAll(p, line, entries, i, slots) ==
      if i == |entries| then (p, slots)
      else ReadAll(Ask(p, line, RequestSent, ReadRequest(entries[i].shortName)), line, entries, i + 1,
                   if line.locks(i) then slots[i := Answer(entries[i], Heard(line, |p.trace|))] else slots)
  {
    hide Heard, Answer, Ask, ReadRequest;
  }

  lemma BufferHolds(now: seq<byte>, w: seq<byte>, n: nat)
    requires n == |w| && exists was :: Buffers.Written(now, w, was)
    ensures n <= |now| && now[..n] == w
  {
  }

  lemma FirstWithStep(slots: seq<Reading>, code: seq<byte>)
    requires slots != []
    ensures FirstWith(slots, code) == if slots[0].obis == code then 0 else 1 + FirstWith(slots[1..], code)
  {
  }

  class Client {
    const route: Route
    const password: Option<seq<byte>>
    const rx: Receiver.Client
    const frame: FrameBuffer
    const txBuffer: array<byte>
    const obisEntries: array<Entry>
    const readings: array<Reading>
    var obisCount: nat
    var state: State
    var sendSeq: byte
    var recvSeq: byte
    var pollsCompleted: nat
    var errorsTotal: nat
    /** How often the current cycle has waited: it tells which arrivals a wait meets. */
    var waits: nat
    /** What the current cycle has exchanged, and the frames ever handed to the UART. */
    ghost var trace: seq<Exchange>
    ghost var wire: seq<seq<byte>>

    ghost predicate Valid()
      reads this`obisCount, this`pollsCompleted, this`errorsTotal, this`waits, this`trace, rx, frame
    {
      && rx.Valid() && frame.Valid() && txBuffer.Length == TX_BUFFER_SIZE
      && rx.rxBuffer != frame.info && txBuffer != rx.rxBuffer && txBuffer != frame.info
      && obisEntries.Length == MAX_ENTRIES && readings.Length == MAX_ENTRIES && obisCount <= MAX_ENTRIES
      && pollsCompleted < COUNTER_MODULUS && errorsTotal < COUNTER_MODULUS
      && waits == |trace|
      && (password.Some? ==> |password.value| <= MAX_PASSWORD_LEN)
    }

    ghost function Now(): Progress
      reads this`trace, this`sendSeq, this`recvSeq
    {
      Progress(trace, sendSeq, recvSeq)
    }

    ghost function Contents(): (s: Poller)
      requires obisCount <= obisEntries.Length && obisCount <= readings.Length
      reads this`obisCount, this`pollsCompleted, this`errorsTotal, obisEntries, readings
    {
      Poller(obisEntries[..obisCount], readings[..obisCount], pollsCompleted, errorsTotal)
    }

    /** `dlms_client_init`, the UART aside. */
    constructor (route: Route, password: Option<seq<byte>>)
      requires password.Some? ==> |password.value| <= MAX_PASSWORD_LEN
      ensures Valid() && Contents() == Poller([], [], 0, 0) && state == Idle && wire == []
      ensures this.route == route && this.password == password
    {
      this.route, this.password := route, password;
      rx := new Receiver.Client();
      frame := new FrameBuffer();
      txBuffer := new byte[TX_BUFFER_SIZE];
      obisEntries := new Entry[MAX_ENTRIES];
      readings := new Reading[MAX_ENTRIES];
      obisCount, pollsCompleted, errorsTotal := 0, 0, 0;
      state, sendSeq, recvSeq := Idle, 0, 0;
      waits, trace, wire := 0, [], [];
    }

    /** `dlms_client_add_obis`; false is `ESP_ERR_NO_MEM`. */
    method AddObis(text: string, shortName: bv16) returns (ok: bool)
      requires Valid()
      modifies this`obisCount, obisEntries, readings
      ensures Valid() && ok == Register(old(Contents()), text, shortName).Some?
      ensures Contents() == if ok then Register(old(Contents()), text, shortName).value else old(Contents())
    {
      hide Padded;
      if obisCount >= MAX_ENTRIES { return false; }
      var entry := EntryOf(text, shortName);
      obisEntries[obisCount] := entry;
      readings[obisCount] := Reading(entry.obis, entry.obisStr, 0, IntVal(0), false);
      obisCount := obisCount + 1;
      return true;
    }

    /** `dlms_client_get_reading` */
    method GetReading(text: string, locked: bool) returns (r: Lookup)
      requires Valid()
      ensures r == PollReadings.GetReading(Contents(), text, locked)
    {
      hide Obis.Code, FirstWith;
      var code := Obis.Code(text);
      if code.None? { return InvalidArg; }
      if !locked { return Timeout; }
      ghost var slots := readings[..obisCount];
      assert slots[0..] == slots;
      for i := 0 to obisCount
        invariant FirstWith(slots, code.value) == i + FirstWith(slots[i..], code.value)
      {
        FirstWithStep(slots[i..], code.value);
        assert slots[i..][1..] == slots[i + 1..];
        if readings[i].obis == code.value { return Found(readings[i]); }
      }
      return NotFound;
    }

    /** Handing the first `n` octets of the transmit buffer to the UART and waiting for a frame. */
    method SendAndWait(line: Line, n: nat, ghost sent: Command) returns (ok: bool)
      requires Valid() && Readable(line) && n <= txBuffer.Length && txBuffer[..n] == WireOf(route, sent)
      modifies this`waits, this`trace, this`wire, rx`rxLen, rx.rxBuffer, frame, frame.info
      ensures Valid() && wire == old(wire) + [WireOf(route, sent)]
      ensures trace == old(trace) + [Exchange(state, sent, Heard(line, |old(trace)|))]
      ensures ok == Heard(line, |old(trace)|).Some?
      ensures ok ==> frame.Shows(Heard(line, |old(trace)|).value)
    {
      hide Receiver.Wait, WireOf;
      wire := wire + [txBuffer[..n]];
      trace := trace + [Exchange(state, sent, Heard(line, waits))];
      assert InBounds(line.arrivals(waits));
      ok := rx.WaitForFrame(line.arrivals(waits), frame);
      waits := waits + 1;
    }

    /** One attempt to connect, with the connection request in the transmit buffer. */
    method TryConnect(line: Line, n: nat) returns (decided: bool, up: bool)
      requires Valid() && Readable(line) && state == ConnectingHdlc
      requires n <= txBuffer.Length && txBuffer[..n] == WireOf(route, Snrm)
      modifies this`waits, this`trace, this`wire, rx`rxLen, rx.rxBuffer, frame, frame.info
      ensures Valid() && wire == old(wire) + [WireOf(route, Snrm)]
      ensures Now() == Say(old(Now()), line, ConnectingHdlc, Snrm)
      ensures var reply := Heard(line, |old(trace)|);
        up == Confirms(reply) && decided == (Confirms(reply) || Refuses(reply))
    {
      hide Heard, WireOf, IsUa, IsI, IsRr, IsUi, SendSeq, RecvSeq;
      var ok := SendAndWait(line, n, Snrm);
      if ok {
        if IsUa(frame.control) {
          return true, true;
        } else if frame.control == CTRL_DM {
          return true, false;
        }
      }
      return false, false;
    }

    /** The attempts to connect. */
    method Connect(line: Line) returns (up: bool)
      requires Valid() && Readable(line) && trace == [] && sendSeq == 0 && recvSeq == 0
      modifies this`state, this`waits, this`trace, this`wire, txBuffer, rx`rxLen, rx.rxBuffer, frame, frame.info
      ensures Valid() && (Now(), up) == Link(START, line, MAX_RETRIES)
      ensures wire == old(wire) + WiresOf(route, trace)
    {
      hide Heard, Wire, WireOf, WiresOf, Buffers.Written, Confirms, Refuses, Link, Readable;
      state := ConnectingHdlc;
      var n := BuildSnrm(txBuffer, TX_BUFFER_SIZE, route);
      CommandWires(route);
      BufferHolds(txBuffer[..], WireOf(route, Snrm), n);
      assert wire == old(wire) + [];
      for retry := 0 to MAX_RETRIES
        invariant Valid() && state == ConnectingHdlc && txBuffer[..n] == WireOf(route, Snrm) && n <= txBuffer.Length
        invariant Link(Now(), line, MAX_RETRIES - retry) == Link(START, line, MAX_RETRIES)
        invariant wire == old(wire) + WiresOf(route, trace)
      {
        LinkStep(Now(), line, MAX_RETRIES - retry);
        WiresSnoc(route, trace, Exchange(ConnectingHdlc, Snrm, Heard(line, |trace|)));
        var decided, confirmed := TryConnect(line, n);
        if decided { return confirmed; }
      }
      LinkStep(Now(), line, 0);
      return false;
    }

    /** Building and sending an I-frame, advancing N(S), and taking N(R) from a numbered answer. */
    method Request(line: Line, apdu: seq<byte>) returns (ok: bool)
      requires Valid() && Readable(line) && |apdu| <= APDU_SIZE
      modifies this`sendSeq, this`recvSeq, this`waits, this`trace, this`wire, txBuffer, rx`rxLen, rx.rxBuffer, frame,
        frame.info
      ensures Valid() && Now() == Ask(old(Now()), line, state, apdu)
      ensures SentOne(route, old(trace), trace, old(wire), wire)
      ensures ok == Heard(line, |old(trace)|).Some?
      ensures ok ==> frame.Shows(Heard(line, |old(trace)|).value)
    {
      hide Heard, WiresOf, Buffers.Written, IsI, IsRr, IsUi, SendSeq, RecvSeq, WireIframe, NextSeq;
      ghost var sent := Iframe(sendSeq, recvSeq, apdu);
      var n := BuildIframe(txBuffer, TX_BUFFER_SIZE, route, sendSeq, recvSeq, apdu);
      BufferHolds(txBuffer[..], WireOf(route, sent), n);
      sendSeq := NextSeq(sendSeq);
      ok := SendAndWait(line, n, sent);
      if ok && frame.isIframe {
        recvSeq := NextSeq(frame.sendSeq);
      }
    }

    /** The request for one entry. */
    method RequestEntry(line: Line, i: nat) returns (ok: bool)
      requires Valid() && Readable(line) && i < obisCount
      modifies this`state, this`sendSeq, this`recvSeq, this`waits, this`trace, this`wire, txBuffer,
               rx`rxLen, rx.rxBuffer, frame, frame.info
      ensures Valid() && Now() == Ask(old(Now()), line, RequestSent, ReadRequest(obisEntries[i].shortName))
      ensures SentOne(route, old(trace), trace, old(wire), wire)
      ensures ok == Heard(line, |old(trace)|).Some?
      ensures ok ==> frame.Shows(Heard(line, |old(trace)|).value)
    {
      hide SentOne, Heard, Ask, Buffers.Written, WireOf, ReadRequest, IsI, IsRr, IsUi, SendSeq, RecvSeq;
      state := RequestSent;
      var apdu := new byte[APDU_SIZE];
      var apduLen := BuildReadRequest(apdu, obisEntries[i].shortName);
      BufferHolds(apdu[..], ReadRequest(obisEntries[i].shortName), apduLen);
      ok := Request(line, apdu[..apduLen]);
    }

    /** One turn of the loop over the entries. */
    method ReadEntry(line: Line, i: nat)
      requires Valid() && Readable(line) && i < obisCount
      modifies this`state, this`sendSeq, this`recvSeq, this`waits, this`trace, this`wire, txBuffer, readings,
               rx`rxLen, rx.rxBuffer, frame, frame.info
      ensures Valid() && state == Connected
      ensures Now() == Ask(old(Now()), line, RequestSent, ReadRequest(obisEntries[i].shortName))
      ensures SentOne(route, old(trace), trace, old(wire), wire)
      ensures readings[..] == if line.locks(i) then old(readings[..])[i := Answer(obisEntries[i], Heard(line,
        |old(trace)|))]
                              else old(readings[..])
    {
      hide SentOne, Heard, Ask, ReadRequest, FromResponse, IsI, IsRr, IsUi, SendSeq, RecvSeq;
      var entry := obisEntries[i];
      var reading := new ReadingBuffer(Reading(entry.obis, entry.obisStr, 0, IntVal(0), false));
      var ok := RequestEntry(line, i);
      if ok {
        var result := HandleReadResponse(frame.info[..frame.infoLen], reading, entry);
        if result == -1 { reading.valid := false; }
      } else {
        reading.valid := false;
      }
      if line.locks(i) { readings[i] := reading.Snapshot(); }
      state := Connected;
    }

    /** The loop over the entries. */
    method ReadEntries(line: Line)
      requires Valid() && Readable(line)
      modifies this`state, this`sendSeq, this`recvSeq, this`waits, this`trace, this`wire, txBuffer, readings,
               rx`rxLen, rx.rxBuffer, frame, frame.info
      ensures Valid()
      ensures (Now(), readings[..obisCount])
           == ReadAll(old(Now()), line, obisEntries[..obisCount], 0, old(readings[..obisCount]))
      ensures forall base :: old(wire) == base + WiresOf(route, old(trace)) ==> wire == base + WiresOf(route, trace)
    {
      hide Heard, Ask, WireOf, WiresOf, ReadRequest, Answer, ReadAll, SentOne;
      ghost var entries, slots := obisEntries[..obisCount], readings[..obisCount];
      for i := 0 to obisCount
        invariant Valid() && obisEntries[..obisCount] == entries
        invariant ReadAll(Now(), line, entries, i, readings[..obisCount])
          == ReadAll(old(Now()), line, entries, 0, slots)
        invariant forall base :: old(wire) == base + WiresOf(route, old(trace)) ==> wire == base + WiresOf(route, trace)
      {
        ghost var p, w, now := Now(), wire, readings[..obisCount];
        ReadAllStep(p, line, entries, i, now);
        ReadEntry(line, i);
        assert obisEntries[i] == entries[i];
        assert readings[..obisCount] == if line.locks(i) then now[i := Answer(entries[i], Heard(line,
          |p.trace|))] else now;
        SentOnAny(route, p.trace, trace, w, wire);
      }
      ReadAllStep(Now(), line, entries, obisCount, readings[..obisCount]);
    }

    /** The association request and its answer. */
    method Associate(line: Line) returns (accepted: bool)
      requires Valid() && Readable(line)
      modifies this`state, this`sendSeq, this`recvSeq, this`waits, this`trace, this`wire, txBuffer,
               rx`rxLen, rx.rxBuffer, frame, frame.info
      ensures Valid() && Now() == Ask(old(Now()), line, ConnectingDlms, Aarq(password))
      ensures SentOne(route, old(trace), trace, old(wire), wire)
      ensures accepted == Accepted(Heard(line, |old(trace)|))
    {
      hide Heard, Ask, Buffers.Written, WireOf, Aarq, SentOne, AareAccepted, IsI, IsRr, IsUi, SendSeq, RecvSeq;
      state := ConnectingDlms;
      var apdu := new byte[APDU_SIZE];
      AarqFits(password);
      var apduLen := BuildAarq(apdu, password);
      BufferHolds(apdu[..], Aarq(password), apduLen);
      var ok := Request(line, apdu[..apduLen]);
      if !ok { return false; }
      accepted := ParseAare(frame.info[..frame.infoLen]);
    }

    method Disconnect(line: Line)
      requires Valid() && Readable(line)
      modifies this`state, this`waits, this`trace, this`wire, txBuffer, rx`rxLen, rx.rxBuffer, frame, frame.info
      ensures Valid() && Now() == Say(old(Now()), line, Disconnecting, Disc)
      ensures SentOne(route, old(trace), trace, old(wire), wire)
    {
      hide Heard, Buffers.Written, Wire, WireOf, IsI, IsRr, IsUi, SendSeq, RecvSeq;
      state := Disconnecting;
      var n := BuildDisc(txBuffer, TX_BUFFER_SIZE, route);
      CommandWires(route);
      BufferHolds(txBuffer[..], WireOf(route, Disc), n);
      var _ := SendAndWait(line, n, Disc);
    }

    /** `do_poll_cycle` from the confirmed connection to the disconnect. */
    method Converse(line: Line)
      requires Valid() && Readable(line)
      modifies this`state, this`sendSeq, this`recvSeq, this`waits, this`trace, this`wire, txBuffer, readings,
               rx`rxLen, rx.rxBuffer, frame, frame.info
      ensures Valid()
      ensures (Now(), readings[..obisCount])
           == Talk(old(Now()), line, password, obisEntries[..obisCount], old(readings[..obisCount]))
      ensures forall base :: old(wire) == base + WiresOf(route, old(trace)) ==> wire == base + WiresOf(route, trace)
    {
      hide Heard, Ask, Say, WireOf, WiresOf, Aarq, ReadAll, Readable, SentOne, Accepted;
      ghost var t, w := trace, wire;
      var accepted := Associate(line);
      SentOnAny(route, t, trace, w, wire);
      if accepted {
        state := Connected;
        ReadEntries(line);
      }
      ghost var t', w' := trace, wire;
      Disconnect(line);
      SentOnAny(route, t', trace, w', wire);
    }

    /** Resetting the protocol state. */
    method Reset()
      requires Valid()
      modifies this`sendSeq, this`recvSeq, this`waits, this`trace
      ensures Valid() && Now() == START
    {
      sendSeq, recvSeq, waits, trace := 0, 0, 0, [];
    }

    /** The end of a cycle that failed to connect, and of one that did not. */
    method Finish(connected: bool)
      requires Valid()
      modifies this`state, this`pollsCompleted, this`errorsTotal
      ensures Valid() && state == Idle
      ensures Contents() == var s := old(Contents());
        if connected then s.(polls := Bump(s.polls)) else s.(errors := Bump(s.errors))
    {
      if !connected {
        state := Error;
        errorsTotal := Bump(errorsTotal);
      } else {
        pollsCompleted := Bump(pollsCompleted);
      }
      state := Idle;
    }

    /** `do_poll_cycle`. The `tx_len == 0` exit is not reached: 33 octets always fit the transmit buffer. */
    method DoPollCycle(line: Line)
      requires Valid() && Readable(line)
      modifies this`state, this`sendSeq, this`recvSeq, this`waits, this`trace, this`wire, this`pollsCompleted,
        this`errorsTotal,
               txBuffer, readings, rx`rxLen, rx.rxBuffer, frame, frame.info
      ensures Valid() && state == Idle
      ensures Contents() == Cycle(old(Contents()), password, line).after
      ensures Now() == Cycle(old(Contents()), password, line).progress
      ensures wire == old(wire) + WiresOf(route, trace)
    {
      hide Heard, WireOf, WiresOf, Link, Readable, Talk, Cycle, Bump;
      ghost var s := Contents();
      Reset();
      var up := Connect(line);
      CycleIs(s, password, line, Now(), up);
      if up { Converse(line); }
      Finish(up);
    }
  }
}
