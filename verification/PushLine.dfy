/** The frames of a push, sent one after the other, and which of them the push buffer takes out whole however they
    are cut into reads. */
module PushLine {
  import opened Bytes
  import opened Hdlc
  import opened HdlcParser
  import opened Splitting
  import opened FrameFinder
  import opened Receiver
  import opened PushBuffer
  import HdlcRoundTrip

  /** A frame of a push. */
  datatype Push = Push(addresses: Addresses, control: byte, info: seq<byte>) {
    function Sent(): seq<byte> { Wire(addresses, control, info) }

    /** It fits the length field, and has no flag between its flags. */
    predicate Sendable() {
      WellAddressed(addresses) && FrameLen(addresses, |info|) <= HdlcRoundTrip.MAX_FRAME_LEN && NoFlag(Inner(Sent()))
    }
  }

  predicate AllSendable(ps: seq<Push>) { forall k :: 0 <= k < |ps| ==> ps[k].Sendable() }

  function Line(ps: seq<Push>): seq<byte> { if ps == [] then [] else ps[0].Sent() + Line(ps[1..]) }

  lemma SentIsFramed(p: Push)
    requires p.Sendable()
    ensures var b := Inner(p.Sent()); p.Sent() == Framed(b) && b != [] && Lacks(b, FLAG)
  {
    hide Wire;
    WireIsFramed(p.addresses, p.control, p.info);
    assert |p.Sent()| == FrameLen(p.addresses, |p.info|) + 2;
  }

  /** A frame behind at most one flag is the first one found, whatever follows. */
  lemma FirstOfLine(rx: seq<byte>, b: seq<byte>, rest: seq<byte>)
    requires rx == [] || rx == [FLAG]
    requires Lacks(b, FLAG) && b != []
    ensures Find(rx + Framed(b) + rest) == Some(Span(|rx|, |rx| + |b| + 2))
  {
    hide Find;
    var buf := rx + Framed(b) + rest;
    if rx == [] {
      assert buf == [] + ([FLAG] + b + [FLAG]) + rest;
      FindAfterNoise([], b, rest);
    } else {
      assert buf[2..|b| + 2] == b;
      assert buf[1] == FLAG;
      forall e: nat ensures !IsFrame(buf, 0, e) {
        if IsFrame(buf, 0, e) { SeparatorInside(buf, FLAG, 1, e - 1, 1); }
      }
      FindUnique(buf, 1, |b| + 3);
    }
  }

  lemma TakesOne(rx: seq<byte>, b: seq<byte>)
    requires rx == [] || rx == [FLAG]
    requires Lacks(b, FLAG) && b != [] && |rx| + |b| + 2 <= PushBuffer.BUFFER_SIZE
    ensures Feasible(rx, Data(Framed(b))) && Dropped(rx, Data(Framed(b))) == []
    ensures Step(rx, Data(Framed(b))) == PushBuffer.Turn([FLAG], Some(Framed(b)))
  {
    hide Find, MbusFrom;
    var buf := rx + Framed(b);
    FirstOfLine(rx, b, []);
    assert buf + [] == buf;
    assert buf[|rx|..|rx| + |b| + 2] == Framed(b) && buf[|rx| + |b| + 1..] == [FLAG];
  }

  /** One read for each frame. */
  function FrameByFrame(ps: seq<Push>): (events: seq<Event>) {
    if ps == [] then [] else [Data(ps[0].Sent())] + FrameByFrame(ps[1..])
  }

  // ---------- Frames that no reads can break ----------

  /** A frame that, behind `rx`, fits the buffer and holds no M-Bus window. */
  predicate Safe(rx: seq<byte>, p: Push) {
    |rx| + |p.Sent()| <= PushBuffer.BUFFER_SIZE && MbusFrom(p.Sent(), 0).None?
  }

  predicate AllSafe(rx: seq<byte>, ps: seq<Push>)
    decreases |ps|
  {
    ps == [] || (Safe(rx, ps[0]) && AllSafe([FLAG], ps[1..]))
  }

  lemma MbusShifted(s: seq<byte>, rx: seq<byte>, n: nat, i: nat)
    requires n <= |s|
    ensures IsMbus(rx + s[..n], |rx| + i) ==> IsMbus(s, i)
    ensures IsMbus(s, i) && i + 6 + Val(s[i + 1]) <= n ==> IsMbus(rx + s[..n], |rx| + i)
  {
    hide Val;
    var buf := rx + s[..n];
    assert forall k :: 0 <= k < n ==> buf[|rx| + k] == s[k];
  }

  lemma StartsWithMbus(buf: seq<byte>, i: nat)
    requires IsMbus(buf, i)
    ensures i < |buf| && buf[i] == MBUS_START
  {
  }

  /** A part of a safe frame holds no window either. */
  lemma NoWindow(rx: seq<byte>, p: Push, n: nat)
    requires (rx == [] || rx == [FLAG]) && Safe(rx, p) && n <= |p.Sent()|
    ensures MbusFrom(rx + p.Sent()[..n], 0).None?
  {
    hide IsMbus, Push.Sent;
    var s := p.Sent();
    var buf := rx + s[..n];
    if MbusFrom(buf, 0).Some? {
      var i := MbusFrom(buf, 0).value.start;
      StartsWithMbus(buf, i);
      MbusShifted(s, rx, n, i - |rx|);
    }
  }

  // ---------- Safe frames ----------

  lemma LineStarts(rx: seq<byte>, ps: seq<Push>)
    requires (rx == [] || rx == [FLAG]) && AllSendable(ps)
    ensures rx + Line(ps) != [] ==> (rx + Line(ps))[0] == FLAG
  {
    hide Push.Sent;
    if ps != [] {
      assert ps[0].Sendable();
      SentIsFramed(ps[0]);
    }
  }

  lemma NothingShort(buf: seq<byte>)
    requires |buf| <= 1
    ensures Find(buf).None? && MbusFrom(buf, 0).None?
  {
    hide Find, MbusFrom;
    FoundBounds(buf);
  }

  /** A part of a safe frame in the buffer, and no more than that, is kept. */
  lemma PartIsKept(pre: seq<byte>, p: Push, buf: seq<byte>)
    requires (pre == [] || pre == [FLAG]) && Safe(pre, p) && buf < pre + p.Sent()
    ensures MbusFrom(buf, 0).None? && |buf| < PushBuffer.BUFFER_SIZE
  {
    hide MbusFrom, Push.Sent;
    if |buf| < |pre| {
      NothingShort(buf);
    } else {
      var n := |buf| - |pre|;
      assert buf == pre + p.Sent()[..n];
      NoWindow(pre, p, n);
    }
  }

  lemma Shorter<T>(buf: seq<T>, more: seq<T>, whole: seq<T>, rest: seq<T>)
    requires buf + more == whole + rest
    ensures if |buf| >= |whole| then buf == whole + rest[..|buf| - |whole|] else buf < whole
  {
    assert buf == (buf + more)[..|buf|] == (whole + rest)[..|buf|];
    if |buf| >= |whole| {
      assert (whole + rest)[..|buf|] == whole + rest[..|buf| - |whole|];
    } else {
      assert (whole + rest)[..|buf|] == whole[..|buf|];
    }
  }

  lemma Behind<T>(whole: seq<T>, rest: seq<T>, buf: seq<T>, more: seq<T>, e: nat)
    requires buf + more == whole + rest && 1 <= e == |whole| <= |buf|
    ensures buf[e - 1..] + more == [whole[e - 1]] + rest
  {
    assert (buf + more)[e - 1..] == buf[e - 1..] + more;
    assert (whole + rest)[e - 1..] == [whole[e - 1]] + rest;
  }

  /** Reading into safe frames throws nothing away. */
  lemma SafeTurn(rx: seq<byte>, bytes: seq<byte>, more: seq<byte>, pre: seq<byte>, qs: seq<Push>)
    requires (pre == [] || pre == [FLAG]) && AllSendable(qs) && AllSafe(pre, qs)
    requires rx + bytes + more == pre + Line(qs)
    ensures var ev := Data(bytes); var turn := Step(rx, ev);
      Dropped(rx, ev) == []
      && if turn.frame.None? then turn.rx + more == pre + Line(qs)
         else qs != [] && turn.rx + more == [FLAG] + Line(qs[1..])
  {
    hide Find, MbusFrom, Push.Sent, Push.Sendable, Safe;
    var buf := rx + bytes;
    if qs == [] {
      NothingShort(buf);
    } else {
      var p := qs[0];
      assert p.Sendable();
      SentIsFramed(p);
      var b, rest := Inner(p.Sent()), Line(qs[1..]);
      var whole := pre + p.Sent();
      Assoc(pre, p.Sent(), rest);
      FirstOfLine(pre, b, rest);
      Shorter(buf, more, whole, rest);
      if |buf| >= |whole| {
        FirstOfLine(pre, b, rest[..|buf| - |whole|]);
        Behind(whole, rest, buf, more, |whole|);
      } else {
        if Find(buf).Some? {
          FindStable(buf, more);
          FoundBounds(buf);
        }
        PartIsKept(pre, p, buf);
      }
    }
  }

  lemma SafeRest(pre: seq<byte>, qs: seq<Push>)
    requires qs != [] && AllSendable(qs) && AllSafe(pre, qs)
    ensures AllSendable(qs[1..]) && AllSafe([FLAG], qs[1..])
  {
    hide Safe, Push.Sendable;
  }

  lemma SafeTimeout(rx: seq<byte>, more: seq<byte>, pre: seq<byte>, qs: seq<Push>)
    requires (pre == [] || pre == [FLAG]) && AllSendable(qs) && rx + more == pre + Line(qs)
    ensures Dropped(rx, Idle) == [] && Step(rx, Idle) == PushBuffer.Turn(rx, None)
  {
    hide Push.Sendable, Line;
    LineStarts(pre, qs);
    if rx != [] { assert (rx + more)[0] == rx[0]; }
  }

  /** However safe frames are cut into reads, and whatever timeouts come between, no flag is thrown away. */
  lemma {:induction false} SafeRun(rx: seq<byte>, events: seq<Event>, t: seq<byte>, pre: seq<byte>, qs: seq<Push>)
    requires (pre == [] || pre == [FLAG]) && AllSendable(qs) && AllSafe(pre, qs)
    requires rx + Stream(events) + t == pre + Line(qs)
    ensures KeepsFlags(rx, events)
    decreases |events|
  {
    hide Step, Dropped, AllSafe, Line;
    if events != [] {
      var ev, rest := events[0], events[1..];
      Assoc(rx, Arriving(ev), Stream(rest));
      Assoc(rx + Arriving(ev), Stream(rest), t);
      match ev
      case Idle =>
        SafeTimeout(rx, Stream(rest) + t, pre, qs);
        Assoc(rx, Stream(rest), t);
        assert rx + [] == rx;
        SafeRun(rx, rest, t, pre, qs);
      case Data(bytes) =>
        SafeTurn(rx, bytes, Stream(rest) + t, pre, qs);
        var turn := Step(rx, ev);
        Assoc(turn.rx, Stream(rest), t);
        if turn.frame.None? {
          SafeRun(turn.rx, rest, t, pre, qs);
        } else {
          SafeRest(pre, qs);
          SafeRun(turn.rx, rest, t, [FLAG], qs[1..]);
        }
    }
  }

  // ---------- Frames that are not ----------

  /** Reads of one byte each. */
  function Drip(s: seq<byte>): (events: seq<Event>)
    ensures Stream(events) == s
  {
    if s == [] then [] else [Data([s[0]])] + Drip(s[1..])
  }

  lemma {:induction false} DripFeasible(rx: seq<byte>, s: seq<byte>)
    requires |rx| < PushBuffer.BUFFER_SIZE
    ensures FeasibleRun(rx, Drip(s))
    decreases |s|
  {
    hide Step;
    if s != [] {
      RoomForARead(rx, Data([s[0]]));
      assert Drip(s)[1..] == Drip(s[1..]);
      DripFeasible(Step(rx, Data([s[0]])).rx, s[1..]);
    }
  }

  /** How much of an unsafe frame to read so that its opening flag is thrown away: up to the end of the window, or
      until the buffer is full. */
  function Fatal(rx: seq<byte>, p: Push): (n: nat)
    requires (rx == [] || rx == [FLAG]) && !Safe(rx, p)
  {
    if |rx| + |p.Sent()| > PushBuffer.BUFFER_SIZE then PushBuffer.BUFFER_SIZE - |rx|
    else MbusFrom(p.Sent(), 0).value.end
  }

  lemma {:induction false} WindowLength(s: seq<byte>, i: nat)
    requires MbusFrom(s, i).Some?
    ensures var p := MbusFrom(s, i).value; p.start + 1 < |s| && p.end == p.start + 6 + Val(s[p.start + 1]) <= |s|
    decreases |s| - i
  {
    hide Val;
    if !IsMbus(s, i) { WindowLength(s, i + 1); }
  }

  lemma WindowRead(rx: seq<byte>, s: seq<byte>)
    requires MbusFrom(s, 0).Some?
    ensures var n := MbusFrom(s, 0).value.end; n <= |s| && MbusFrom(rx + s[..n], 0).Some?
  {
    hide MbusFrom, Val;
    var p := MbusFrom(s, 0).value;
    WindowLength(s, 0);
    MbusShifted(s, rx, p.end, p.start);
    assert IsMbus(rx + s[..p.end], |rx| + p.start);
  }

  lemma FatalRead(rx: seq<byte>, p: Push)
    requires (rx == [] || rx == [FLAG]) && p.Sendable() && !Safe(rx, p)
    ensures var n := Fatal(rx, p); 1 <= n < |p.Sent()| && var ev := Data(p.Sent()[..n]);
      Feasible(rx, ev) && !NoFlag(Dropped(rx, ev))
  {
    hide Find, MbusFrom, Push.Sent, Push.Sendable, IsMbus;
    SentIsFramed(p);
    var s, n := p.Sent(), Fatal(rx, p);
    if |rx| + |s| <= PushBuffer.BUFFER_SIZE { MbusEnds(s, 0); }
    assert s[|s| - 1] == FLAG;
    var buf := rx + s[..n];
    FirstOfLine(rx, Inner(s), []);
    assert rx + s + [] == buf + s[n..];
    if Find(buf).Some? {
      FindStable(buf, s[n..]);
      FoundBounds(buf);
    }
    assert buf[0] == FLAG;
    if |rx| + |s| <= PushBuffer.BUFFER_SIZE { WindowRead(rx, s); }
    var d := Dropped(rx, Data(s[..n]));
    assert d != [] && d[0] == FLAG;
  }

  lemma DataFirst(rx: seq<byte>, bytes: seq<byte>, rest: seq<Event>)
    ensures var ev, events := Data(bytes), [Data(bytes)] + rest; var next := Step(rx, ev).rx;
      Stream(events) == bytes + Stream(rest)
      && (FeasibleRun(rx, events) <==> Feasible(rx, ev) && FeasibleRun(next, rest))
      && (KeepsFlags(rx, events) <==> NoFlag(Dropped(rx, ev)) && KeepsFlags(next, rest))
  {
    hide Step, Dropped, NoFlag;
    assert ([Data(bytes)] + rest)[1..] == rest;
  }

  lemma CutIn<T>(s: seq<T>, n: nat, rest: seq<T>)
    requires n <= |s|
    ensures s[..n] + (s[n..] + rest) == s + rest
  {
  }

  lemma ShortBehind(rx: seq<byte>, bytes: seq<byte>)
    requires |rx| <= 1 && Feasible(rx, Data(bytes))
    ensures |Step(rx, Data(bytes)).rx| < PushBuffer.BUFFER_SIZE
  {
    hide Step;
    RoomForARead(rx, Data(bytes));
  }

  /** The fatal read, and then byte by byte. */
  lemma FatalStart(rx: seq<byte>, p: Push, rest: seq<byte>) returns (events: seq<Event>)
    requires (rx == [] || rx == [FLAG]) && p.Sendable() && !Safe(rx, p)
    ensures FeasibleRun(rx, events) && Stream(events) == p.Sent() + rest && !KeepsFlags(rx, events)
  {
    hide Step, Dropped, NoFlag, Push.Sent, Push.Sendable, Safe, Feasible, KeepsFlags, FeasibleRun, Fatal, Stream, Drip;
    FatalRead(rx, p);
    var n := Fatal(rx, p);
    var head, tail := p.Sent()[..n], p.Sent()[n..] + rest;
    events := [Data(head)] + Drip(tail);
    DataFirst(rx, head, Drip(tail));
    ShortBehind(rx, head);
    DripFeasible(Step(rx, Data(head)).rx, tail);
    CutIn(p.Sent(), n, rest);
  }

  lemma SafeFits(rx: seq<byte>, p: Push)
    requires Safe(rx, p)
    ensures |rx| + |p.Sent()| <= PushBuffer.BUFFER_SIZE
  {
  }

  /** One read for each safe frame in front of an unsafe one. */
  lemma {:induction false} FatalRun(rx: seq<byte>, ps: seq<Push>) returns (events: seq<Event>)
    requires (rx == [] || rx == [FLAG]) && AllSendable(ps) && !AllSafe(rx, ps)
    ensures FeasibleRun(rx, events) && Stream(events) == Line(ps) && !KeepsFlags(rx, events)
    decreases |ps|
  {
    hide Step, Dropped, NoFlag, Push.Sent, Push.Sendable, Safe, Feasible, KeepsFlags, FeasibleRun;
    var p := ps[0];
    assert p.Sendable();
    if Safe(rx, p) {
      SentIsFramed(p);
      SafeFits(rx, p);
      TakesOne(rx, Inner(p.Sent()));
      var more := FatalRun([FLAG], ps[1..]);
      events := [Data(p.Sent())] + more;
      DataFirst(rx, p.Sent(), more);
    } else {
      events := FatalStart(rx, p, Line(ps[1..]));
    }
  }

  // ---------- Exactly ----------

  /** Behind the closing flag of the frame before it each frame fits the buffer, and it holds no M-Bus window. */
  predicate NeverBroken(ps: seq<Push>) {
    forall k: nat :: k < |ps| ==>
      MbusFrom(ps[k].Sent(), 0).None? && |ps[k].Sent()| + (if k == 0 then 0 else 1) <= 2048
  }

  lemma {:induction false} AllSafeBehind(ps: seq<Push>)
    ensures AllSafe([FLAG], ps) <==> forall k: nat :: k < |ps| ==> Safe([FLAG], ps[k])
    decreases |ps|
  {
    hide Safe;
    if ps != [] {
      AllSafeBehind(ps[1..]);
      assert forall k: nat :: 1 <= k < |ps| ==> ps[k] == ps[1..][k - 1];
    }
  }

  lemma AllSafeIff(ps: seq<Push>)
    ensures AllSafe([], ps) <==> NeverBroken(ps)
  {
    hide MbusFrom, Push.Sent;
    if ps != [] {
      AllSafeBehind(ps[1..]);
      var rest := ps[1..];
      assert forall k: nat :: k < |rest| ==> rest[k] == ps[k + 1];
      if NeverBroken(ps) {
        forall k: nat | k < |rest| ensures Safe([FLAG], rest[k]) { assert rest[k] == ps[k + 1]; }
      }
    }
  }

  lemma KeptAlways(events: seq<Event>, t: seq<byte>, ps: seq<Push>)
    requires AllSendable(ps) && NeverBroken(ps) && Stream(events) + t == Line(ps)
    ensures KeepsFlags([], events)
  {
    hide Stream, Line, KeepsFlags, NeverBroken, AllSafe, AllSendable;
    AllSafeIff(ps);
    assert [] + Stream(events) + t == [] + Line(ps);
    SafeRun([], events, t, [], ps);
  }

  /** Frames sent one after the other lose no flag however they are cut into reads, timeouts included, if and only
      if none of them holds an M-Bus window or is too long for the buffer. */
  lemma KeptIff(ps: seq<Push>)
    requires AllSendable(ps)
    ensures (forall events :: FeasibleRun([], events) && Stream(events) == Line(ps) ==> KeepsFlags([], events))
      <==> NeverBroken(ps)
  {
    hide Stream, Line, FeasibleRun, KeepsFlags, NeverBroken, AllSafe, AllSendable;
    AllSafeIff(ps);
    if NeverBroken(ps) {
      forall events | FeasibleRun([], events) && Stream(events) == Line(ps) ensures KeepsFlags([], events) {
        KeptAlways(events, [], ps);
      }
    } else {
      var events := FatalRun([], ps);
    }
  }
}
