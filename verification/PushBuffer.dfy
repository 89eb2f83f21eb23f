/** The sliding receive buffer of `e450_push_task`: at most one frame is taken out per read, and its closing
    flag stays in the buffer as the possible opening flag of the next frame. */
module PushBuffer {
  import opened Bytes
  import opened Hdlc
  import opened Splitting
  import opened FrameFinder

  const BUFFER_SIZE := 2048
  const SLASH: byte := 0x2F
  const MBUS_START: byte := 0x68
  const MBUS_STOP: byte := 0x16

  // ---------- The M-Bus fallback ----------

  /** An M-Bus long frame `68 L L 68 ... 16` at position `i`. */
  predicate IsMbus(buf: seq<byte>, i: nat) {
    && i + 6 <= |buf| && buf[i] == MBUS_START
    && buf[i + 1] == buf[i + 2] && buf[i + 3] == MBUS_START
    && i + 6 + Val(buf[i + 1]) <= |buf| && buf[i + 5 + Val(buf[i + 1])] == MBUS_STOP
  }

  function MbusFrom(buf: seq<byte>, i: nat): (r: Option<Span>)
    ensures r.None? ==> forall k :: i <= k ==> !IsMbus(buf, k)
    ensures r.Some? ==> var p := r.value; i <= p.start && IsMbus(buf, p.start) && p.start + 6 <= p.end <= |buf|
    decreases |buf| - i
  {
    if i >= |buf| then None
    else if IsMbus(buf, i) then Some(Span(i, i + 6 + Val(buf[i + 1])))
    else MbusFrom(buf, i + 1)
  }

  method FindMbus(buf: seq<byte>) returns (found: bool, start: nat, end: nat)
    ensures found <==> MbusFrom(buf, 0).Some?
    ensures found ==> MbusFrom(buf, 0) == Some(Span(start, end))
  {
    hide Val;
    found, start, end := false, 0, 0;
    var i := 0;
    while i < |buf|
      invariant i <= |buf| && MbusFrom(buf, i) == MbusFrom(buf, 0)
    {
      if buf[i] == MBUS_START && |buf| - i >= 6 {
        var l1, l2 := buf[i + 1], buf[i + 2];
        if l1 == l2 && buf[i + 3] == MBUS_START {
          var frameLen := 4 + Val(l1) + 2;
          if |buf| - i >= frameLen {
            if buf[i + frameLen - 1] == MBUS_STOP {
              return true, i, i + frameLen;
            }
          }
        }
      }
      i := i + 1;
    }
  }

  // ---------- One turn of the receive loop ----------

  /** What a timed read brings: some bytes, or nothing. */
  datatype Event = Data(bytes: seq<byte>) | Idle

  datatype Turn = Turn(rx: seq<byte>, frame: Option<seq<byte>>)

  /** A read asks for the space that is left and returns at least one byte when it returns any. */
  predicate Feasible(rx: seq<byte>, ev: Event) {
    ev.Data? ==> 1 <= |ev.bytes| <= BUFFER_SIZE - |rx|
  }

  lemma FoundBounds(buf: seq<byte>)
    ensures Find(buf).Some? ==> var p := Find(buf).value; p.start + 3 <= p.end <= |buf| && IsFrame(buf, p.start, p.end)
  {
    FindIsLeftmost(buf);
  }

  function Step(rx: seq<byte>, ev: Event): Turn {
    match ev
    case Data(bytes) =>
      var buf := rx + bytes;
      (match Find(buf)
       case Some(p) =>
         FoundBounds(buf);
         Turn(buf[p.end - 1..], Some(buf[p.start..p.end]))
       case None =>
         match MbusFrom(buf, 0)
         case Some(p) => Turn(buf[p.end - 1..], None)
         case None => Turn(if |buf| == BUFFER_SIZE then [] else buf, None))
    case Idle => Turn(if rx != [] && rx[0] == SLASH then [] else rx, None)
  }

  /** Between turns the buffer is never full, so that every read asks for at least one byte; and a frame that is
      taken out shortens what is in the buffer by at least two bytes. */
  lemma RoomForARead(rx: seq<byte>, ev: Event)
    requires |rx| < BUFFER_SIZE && Feasible(rx, ev)
    ensures |Step(rx, ev).rx| < BUFFER_SIZE
    ensures Step(rx, ev).frame.Some? ==> |Step(rx, ev).rx| + 2 <= |rx + ev.bytes| && |Step(rx, ev).frame.value| >= 3
  {
    hide Find, MbusFrom, IsMbus, IsFrame;
    if ev.Data? { FoundBounds(rx + ev.bytes); }
  }

  function MbusFrame(n: byte, p: seq<byte>, sum: byte): seq<byte> { [0x68, n, n, 0x68] + p + [sum, 0x16] }

  lemma WindowSlices(s: seq<byte>, p: seq<byte>, n: byte, sum: byte)
    requires |p| == Val(n) && MbusFrame(n, p, sum) <= s
    ensures IsMbus(s, 0)
  {
    hide Val;
    var w := MbusFrame(n, p, sum);
    assert w[0] == 0x68 && w[1] == n && w[2] == n && w[3] == 0x68 && w[|w| - 1] == 0x16;
    assert forall k :: 0 <= k < |w| ==> s[k] == w[k];
  }

  lemma WindowAt(buf: seq<byte>, i: nat)
    requires i <= |buf|
    ensures IsMbus(buf, i) <==> IsMbus(buf[i..], 0)
  {
    hide Val;
  }

  lemma WindowParts(s: seq<byte>)
    requires IsMbus(s, 0)
    ensures var n := Val(s[1]);
      |s| >= n + 6 && MbusFrame(s[1], s[4..n + 4], s[n + 4]) <= s
  {
    hide Val;
  }

  /** An M-Bus frame: 68, a length twice, 68, as many octets as it says, a checksum, and 16. */
  lemma MbusIff(buf: seq<byte>, i: nat)
    requires i <= |buf|
    ensures IsMbus(buf, i) <==>
      exists n: byte, p: seq<byte>, sum: byte :: |p| == Val(n) && MbusFrame(n, p, sum) <= buf[i..]
  {
    hide Val, IsMbus, MbusFrame;
    var s := buf[i..];
    WindowAt(buf, i);
    if IsMbus(s, 0) { WindowParts(s); }
    forall n: byte, p: seq<byte>, sum: byte | |p| == Val(n) && MbusFrame(n, p, sum) <= s
      ensures IsMbus(s, 0)
    {
      WindowSlices(s, p, n, sum);
    }
  }

  lemma {:induction false} FirstMbus(buf: seq<byte>, i: nat, k: nat)
    requires i <= k < |buf| && IsMbus(buf, k) && forall j: nat :: i <= j < k ==> !IsMbus(buf, j)
    ensures MbusFrom(buf, i) == Some(Span(k, k + 6 + Val(buf[k + 1])))
    decreases k - i
  {
    hide Val, IsMbus;
    if i < k { FirstMbus(buf, i + 1, k); }
  }

  /** What a read does when it completes no frame between flags: up to the last octet of the first M-Bus frame
      everything goes, that octet stays; without one, 2048 octets are thrown away and fewer are kept. */
  lemma WithoutFrame(rx: seq<byte>, bytes: seq<byte>)
    requires Find(rx + bytes).None?
    ensures var buf, turn := rx + bytes, Step(rx, Data(bytes));
      turn.frame == None
      && (forall k: nat :: k < |buf| && IsMbus(buf, k) && (forall j: nat :: j < k ==> !IsMbus(buf, j)) ==>
            buf[k + 5 + Val(buf[k + 1])] == 0x16 && turn.rx == buf[k + 5 + Val(buf[k + 1])..])
      && ((forall k: nat :: k < |buf| ==> !IsMbus(buf, k)) ==> turn.rx == if |buf| == 2048 then [] else buf)
  {
    hide Find, MbusFrom, Val;
    var buf := rx + bytes;
    forall k: nat | k < |buf| && IsMbus(buf, k) && forall j: nat :: j < k ==> !IsMbus(buf, j)
      ensures MbusFrom(buf, 0) == Some(Span(k, k + 6 + Val(buf[k + 1])))
    {
      FirstMbus(buf, 0, k);
    }
  }

  class PushReceiver {
    const rxBuf: array<byte>
    var rxLen: nat

    constructor ()
      ensures Valid() && fresh(rxBuf) && Received() == []
    {
      rxBuf := new byte[BUFFER_SIZE];
      rxLen := 0;
    }

    ghost predicate Valid()
      reads this
    {
      rxBuf.Length == BUFFER_SIZE && rxLen < BUFFER_SIZE
    }

    ghost function Received(): seq<byte>
      requires Valid()
      reads this, rxBuf
    {
      rxBuf[..rxLen]
    }

    /** `memmove` of the bytes from `start` on to the front. */
    method Shift(start: nat, len: nat)
      requires start <= len <= rxBuf.Length
      modifies this`rxLen, rxBuf
      ensures rxLen == len - start && rxBuf[..rxLen] == old(rxBuf[start..len])
    {
      forall i | 0 <= i < len - start { rxBuf[i] := rxBuf[start + i]; }
      rxLen := len - start;
    }

    /** A read into the space behind what is there. */
    method Fill(bytes: seq<byte>) returns (len: nat)
      requires Valid() && Feasible(Received(), Data(bytes))
      modifies rxBuf
      ensures len == rxLen + |bytes| <= rxBuf.Length && rxBuf[..len] == old(Received()) + bytes
    {
      forall i | 0 <= i < |bytes| { rxBuf[rxLen + i] := bytes[i]; }
      len := rxLen + |bytes|;
    }

    /** The body of the loop after a read that returned bytes; gives back the frame it takes out. */
    method OnBytes(bytes: seq<byte>) returns (frame: Option<seq<byte>>)
      requires Valid() && Feasible(Received(), Data(bytes))
      modifies this`rxLen, rxBuf
      ensures Valid()
      ensures Turn(Received(), frame) == Step(old(Received()), Data(bytes))
    {
      hide Find, MbusFrom, IsMbus, IsFrame;
      RoomForARead(Received(), Data(bytes));
      var len := Fill(bytes);
      ghost var buf := rxBuf[..len];
      FoundBounds(buf);
      frame := None;
      var rc, start, end := FindFrame(rxBuf[..len]);
      var frameFound := rc == 0;
      if frameFound {
        frame := Some(rxBuf[..len][start..end]);
      } else {
        frameFound, start, end := FindMbus(rxBuf[..len]);
      }
      if frameFound {
        assert rxBuf[end - 1..len] == buf[end - 1..];
        Shift(end - 1, len);
      } else if len == BUFFER_SIZE {
        rxLen := 0;
      } else {
        rxLen := len;
      }
    }

    /** The body of the loop after a read that timed out: a buffer that starts with a slash is dropped. The
        terminating zero is written inside the buffer. */
    method OnTimeout()
      requires Valid()
      modifies this`rxLen, rxBuf
      ensures Valid()
      ensures Turn(Received(), None) == Step(old(Received()), Idle)
      ensures Received() == if old(Received()) != [] && old(Received())[0] == 0x2F then [] else old(Received())
    {
      if rxLen > 0 {
        if rxBuf[0] == SLASH {
          rxBuf[rxLen] := 0;
          rxLen := 0;
        }
      }
    }
  }

  // ---------- Whole runs ----------

  datatype Outcome = Outcome(rx: seq<byte>, frames: seq<seq<byte>>)

  function Run(rx: seq<byte>, events: seq<Event>): Outcome
    decreases |events|
  {
    if events == [] then Outcome(rx, [])
    else
      var turn := Step(rx, events[0]);
      var o := Run(turn.rx, events[1..]);
      Outcome(o.rx, (if turn.frame.Some? then [turn.frame.value] else []) + o.frames)
  }

  predicate FeasibleRun(rx: seq<byte>, events: seq<Event>)
    decreases |events|
  {
    events == [] || (Feasible(rx, events[0]) && FeasibleRun(Step(rx, events[0]).rx, events[1..]))
  }

  function Arriving(ev: Event): seq<byte> { if ev.Data? then ev.bytes else [] }

  function Stream(events: seq<Event>): seq<byte> {
    if events == [] then []
    else Arriving(events[0]) + Stream(events[1..])
  }

  function Inner(frame: seq<byte>): seq<byte> { if |frame| >= 2 then frame[1..|frame| - 1] else [] }

  function InnerAll(frames: seq<seq<byte>>): seq<seq<byte>> {
    if frames == [] then [] else [Inner(frames[0])] + InnerAll(frames[1..])
  }

  /** What a turn throws away without taking out a frame: text after a timeout, everything in front of the last
      byte of an M-Bus frame, or a full buffer. */
  function Dropped(rx: seq<byte>, ev: Event): seq<byte> {
    match ev
    case Idle => if rx != [] && rx[0] == SLASH then rx else []
    case Data(bytes) =>
      var buf := rx + bytes;
      if Find(buf).Some? then []
      else
        match MbusFrom(buf, 0)
        case Some(p) => buf[..p.end - 1]
        case None => if |buf| == BUFFER_SIZE then buf else []
  }

  /** No turn of the run throws away a flag. */
  predicate KeepsFlags(rx: seq<byte>, events: seq<Event>)
    decreases |events|
  {
    events == [] || (NoFlag(Dropped(rx, events[0])) && KeepsFlags(Step(rx, events[0]).rx, events[1..]))
  }

  function Extracted(turn: Turn): seq<seq<byte>> { if turn.frame.Some? then [Inner(turn.frame.value)] else [] }

  /** What has been taken out, and what the buffer and any further bytes `t` will make, are together the
      nonempty bodies between the flags of the whole stream, in order. */
  predicate Refines(rx: seq<byte>, events: seq<Event>, t: seq<byte>) {
    var o := Run(rx, events);
    Bodies(rx + Stream(events) + t, FLAG) == InnerAll(o.frames) + Bodies(o.rx + t, FLAG)
  }

  lemma Suffix<T>(a: seq<T>, b: seq<T>, k: nat)
    requires k <= |a|
    ensures (a + b)[k..] == a[k..] + b
  {
  }

  lemma TurnSplits(rx: seq<byte>, ev: Event)
    requires Step(rx, ev).frame.None?
    ensures rx + Arriving(ev) == Dropped(rx, ev) + Step(rx, ev).rx
  {
    hide Find, MbusFrom, IsMbus, IsFrame;
    if ev.Data? { FoundBounds(rx + ev.bytes); }
  }

  /** Flag-free bytes in front of a stream make no body. */
  lemma NoiseMakesNoBody(noise: seq<byte>, s: seq<byte>)
    requires NoFlag(noise)
    ensures Bodies(noise + s, FLAG) == Bodies(s, FLAG)
  {
    hide Bodies, BodiesAfter;
    if NoFlag(s) {
      NoFlagNoBodies(s);
      NoFlagNoBodies(noise + s);
    } else {
      var k := FirstSeparator(s, FLAG);
      assert noise + s == (noise + s[..k]) + [FLAG] + s[k + 1..];
      BodiesFromSeparator(s[..k], FLAG, s[k + 1..]);
      BodiesFromSeparator(noise + s[..k], FLAG, s[k + 1..]);
    }
  }

  lemma FrameTakesBody(buf: seq<byte>, t: seq<byte>)
    requires Find(buf).Some?
    ensures var p := Find(buf).value;
      p.start + 3 <= p.end <= |buf|
      && Bodies(buf + t, FLAG) == [Inner(buf[p.start..p.end])] + Bodies(buf[p.end - 1..] + t, FLAG)
  {
    hide Find, Bodies, IsFrame;
    FoundBounds(buf);
    var p := Find(buf).value;
    FindStable(buf, t);
    FindTakesFirstBody(buf + t);
    Suffix(buf, t, p.end - 1);
    SliceOfPrefix(buf, t, p.start + 1, p.end - 1);
    SliceOfSlice(buf, p.start, p.end, 1, p.end - p.start - 1);
  }

  lemma StepFound(rx: seq<byte>, ev: Event)
    requires Step(rx, ev).frame.Some?
    ensures var buf := rx + Arriving(ev);
      Find(buf).Some? && var p := Find(buf).value;
      p.start + 3 <= p.end <= |buf| && Step(rx, ev) == Turn(buf[p.end - 1..], Some(buf[p.start..p.end]))
  {
    hide Find, MbusFrom, IsMbus, IsFrame;
    FoundBounds(rx + Arriving(ev));
  }

  lemma PrependNothing<T>(s: seq<T>)
    ensures [] + s == s
  {
  }

  /** A turn that throws away no flag takes the next body out of the stream, or none. */
  lemma TurnRefines(rx: seq<byte>, ev: Event, t: seq<byte>)
    requires NoFlag(Dropped(rx, ev))
    ensures var turn := Step(rx, ev); Bodies(rx + Arriving(ev) + t, FLAG) == Extracted(turn) + Bodies(turn.rx + t, FLAG)
  {
    hide Find, Bodies, Inner, NoFlag, Dropped, Step;
    var turn := Step(rx, ev);
    if turn.frame.None? {
      TurnSplits(rx, ev);
      assert Dropped(rx, ev) + turn.rx + t == Dropped(rx, ev) + (turn.rx + t);
      NoiseMakesNoBody(Dropped(rx, ev), turn.rx + t);
      PrependNothing(Bodies(turn.rx + t, FLAG));
    } else {
      StepFound(rx, ev);
      FrameTakesBody(rx + Arriving(ev), t);
    }
  }

  lemma RunStep(rx: seq<byte>, ev: Event, rest: seq<Event>)
    ensures var o := Run(Step(rx, ev).rx, rest);
      Stream([ev] + rest) == Arriving(ev) + Stream(rest)
      && Run(rx, [ev] + rest).rx == o.rx
      && InnerAll(Run(rx, [ev] + rest).frames) == Extracted(Step(rx, ev)) + InnerAll(o.frames)
  {
    hide Step, Inner;
    var turn, events := Step(rx, ev), [ev] + rest;
    assert events[0] == ev && events[1..] == rest;
    var o := Run(turn.rx, rest);
    if turn.frame.Some? { assert ([turn.frame.value] + o.frames)[1..] == o.frames; }
    else { assert [] + o.frames == o.frames; }
  }

  lemma SameAfter<T>(x: seq<T>, a: seq<T>, b: seq<T>, c: seq<T>)
    ensures x + a == x + b + c <==> a == b + c
  {
    if x + a == x + b + c {
      assert a == (x + a)[|x|..];
      assert b + c == (x + b + c)[|x|..];
    }
  }

  lemma RefinesStep(rx: seq<byte>, ev: Event, rest: seq<Event>, t: seq<byte>)
    requires NoFlag(Dropped(rx, ev))
    ensures Refines(rx, [ev] + rest, t) <==> Refines(Step(rx, ev).rx, rest, t)
  {
    hide Bodies, Step, Dropped, NoFlag, Run, Inner, InnerAll, Stream, Extracted;
    var turn := Step(rx, ev);
    RunStep(rx, ev, rest);
    var o := Run(turn.rx, rest);
    TurnRefines(rx, ev, Stream(rest) + t);
    Assoc(rx, Arriving(ev), Stream(rest));
    Assoc(rx + Arriving(ev), Stream(rest), t);
    assert turn.rx + (Stream(rest) + t) == turn.rx + Stream(rest) + t;
    SameAfter(Extracted(turn), Bodies(turn.rx + Stream(rest) + t, FLAG), InnerAll(o.frames), Bodies(o.rx + t, FLAG));
  }

  lemma RefinesNothing(rx: seq<byte>, t: seq<byte>)
    ensures Refines(rx, [], t)
  {
    hide Bodies;
    assert rx + [] == rx;
  }

  /** As long as no flag is thrown away, the frames taken out, under any division into reads and any timeouts,
      are exactly the first nonempty bodies between the flags, in order, each once, frames sharing one flag
      included; the buffer holds what the remaining bodies will be made from, whatever comes next. */
  lemma {:induction false} RunRefinesSplitting(rx: seq<byte>, events: seq<Event>, t: seq<byte>)
    requires KeepsFlags(rx, events)
    ensures var o := Run(rx, events);
      Bodies(rx + Stream(events) + t, FLAG) == InnerAll(o.frames) + Bodies(o.rx + t, FLAG)
    decreases |events|
  {
    hide Bodies, Run, InnerAll, Stream, Step, Dropped, NoFlag;
    if events == [] {
      RefinesNothing(rx, t);
    } else {
      RunRefinesSplitting(Step(rx, events[0]).rx, events[1..], t);
      RefinesStep(rx, events[0], events[1..], t);
      assert events == [events[0]] + events[1..];
    }
  }

  // ---------- The condition is exact ----------

  lemma LastFlag(s: seq<byte>) returns (l: nat)
    requires !NoFlag(s)
    ensures l < |s| && s[l] == FLAG && NoFlag(s[l + 1..])
  {
    l := |s| - 1;
    while s[l] != FLAG
      invariant l < |s| && NoFlag(s[l + 1..]) && !NoFlag(s[..l + 1])
      decreases l
    {
      assert s[..l + 1] == s[..l] + [s[l]];
      assert s[l..] == [s[l]] + s[l + 1..];
      l := l - 1;
    }
  }

  lemma {:induction false} MbusEnds(buf: seq<byte>, i: nat)
    requires MbusFrom(buf, i).Some?
    ensures var p := MbusFrom(buf, i).value; buf[p.end - 1] == MBUS_STOP
    decreases |buf| - i
  {
    hide Val;
    if !IsMbus(buf, i) { MbusEnds(buf, i + 1); }
  }

  /** Neighbouring flags that are not one apart would have been found. */
  lemma NoFlagBehind(d: seq<byte>, r: seq<byte>)
    requires Find(d + r).None? && !NoFlag(d) && r != [] && r[0] != FLAG
    ensures NoFlag(r)
  {
    hide Find;
    if !NoFlag(r) {
      var buf := d + r;
      var l := LastFlag(d);
      var k := FirstSeparator(r, FLAG);
      assert buf[l + 1..|d| + k] == d[l + 1..] + r[..k];
      assert IsFrame(buf, l, |d| + k + 1);
      FindIsLeftmost(buf);
    }
  }

  /** When a flag is thrown away, none is left. */
  lemma DroppedLast(rx: seq<byte>, ev: Event)
    requires !NoFlag(Dropped(rx, ev))
    ensures Step(rx, ev).frame.None? && NoFlag(Step(rx, ev).rx)
  {
    hide IsMbus, Find, MbusFrom;
    if ev.Data? {
      var buf := rx + ev.bytes;
      if MbusFrom(buf, 0).Some? {
        var p := MbusFrom(buf, 0).value;
        var d, r := buf[..p.end - 1], buf[p.end - 1..];
        MbusEnds(buf, 0);
        assert d + r == buf && r[0] == MBUS_STOP;
        NoFlagBehind(d, r);
      }
    }
  }

  /** A byte and a flag after a stream that has a flag complete a body. */
  lemma CompletesBody(s: seq<byte>)
    requires !NoFlag(s)
    ensures Bodies(s + [0, FLAG], FLAG) != []
  {
    hide Bodies, Find;
    var l := LastFlag(s);
    var x := s + [0, FLAG];
    assert x[l + 1..|x| - 1] == s[l + 1..] + [0];
    assert IsFrame(x, l, |x|);
    FindIsLeftmost(x);
    FindTakesFirstBody(x);
  }

  lemma CompletesNone(s: seq<byte>)
    requires NoFlag(s)
    ensures Bodies(s + [0, FLAG], FLAG) == []
  {
    hide Bodies, BodiesAfter;
    assert s + [0, FLAG] == (s + [0]) + [FLAG] + [];
    BodiesFromSeparator(s + [0], FLAG, []);
    BodiesOfOne([], FLAG);
  }

  lemma FlagInFront(a: seq<byte>, b: seq<byte>)
    requires !NoFlag(a)
    ensures !NoFlag(a + b)
  {
    var k := FirstSeparator(a, FLAG);
    assert (a + b)[k] == FLAG;
  }

  lemma LostFlag(rx: seq<byte>, ev: Event)
    requires !NoFlag(Dropped(rx, ev))
    ensures !Refines(rx, [ev], [0, FLAG])
  {
    hide Bodies, Step, Dropped, Inner, NoFlag;
    var turn := Step(rx, ev);
    DroppedLast(rx, ev);
    TurnSplits(rx, ev);
    FlagInFront(Dropped(rx, ev), turn.rx);
    CompletesBody(rx + Arriving(ev));
    CompletesNone(turn.rx);
    RunStep(rx, ev, []);
    assert [ev] + [] == [ev] && Arriving(ev) + [] == Arriving(ev);
  }

  lemma {:induction false} FirstLoss(rx: seq<byte>, events: seq<Event>) returns (k: nat)
    requires !KeepsFlags(rx, events)
    ensures k <= |events| && !Refines(rx, events[..k], [0, FLAG])
    decreases |events|
  {
    hide Refines, Step, Dropped, NoFlag;
    var ev := events[0];
    if NoFlag(Dropped(rx, ev)) {
      var j := FirstLoss(Step(rx, ev).rx, events[1..]);
      k := j + 1;
      assert events[..k] == [ev] + events[1..][..j];
      RefinesStep(rx, ev, events[1..][..j], [0, FLAG]);
    } else {
      k := 1;
      assert events[..1] == [ev];
      LostFlag(rx, ev);
    }
  }

  lemma {:induction false} KeepsPrefix(rx: seq<byte>, events: seq<Event>, k: nat)
    requires KeepsFlags(rx, events) && k <= |events|
    ensures KeepsFlags(rx, events[..k])
    decreases k
  {
    hide Step, Dropped, NoFlag;
    if k > 0 {
      KeepsPrefix(Step(rx, events[0]).rx, events[1..], k - 1);
      assert events[..k][1..] == events[1..][..k - 1];
    }
  }

  lemma RunRefines(rx: seq<byte>, events: seq<Event>, t: seq<byte>)
    requires KeepsFlags(rx, events)
    ensures Refines(rx, events, t)
  {
    hide Bodies, Run, InnerAll, Stream, KeepsFlags;
    RunRefinesSplitting(rx, events, t);
  }

  /** The buffer refines splitting at every moment of a run, whatever comes next, if and only if no turn of the
      run throws away a flag. */
  lemma RefinesIff(rx: seq<byte>, events: seq<Event>)
    ensures (forall k: nat, t: seq<byte> :: k <= |events| ==> Refines(rx, events[..k], t)) <==> KeepsFlags(rx, events)
  {
    hide Refines, KeepsFlags;
    if KeepsFlags(rx, events) {
      forall k: nat, t: seq<byte> | k <= |events| ensures Refines(rx, events[..k], t) {
        KeepsPrefix(rx, events, k);
        RunRefines(rx, events[..k], t);
      }
    } else {
      var k := FirstLoss(rx, events);
    }
  }

  lemma FrameAlone(buf: seq<byte>, s: nat, e: nat)
    requires IsFrame(buf, s, e)
    ensures s + 3 <= e <= |buf| && IsFrame(buf[s..e], 0, e - s)
  {
    SliceOfSlice(buf, s, e, 1, e - s - 1);
  }

  /** Every frame that is taken out is delimited by flags and has a nonempty body without flags. */
  lemma {:induction false} FramesAreFramed(rx: seq<byte>, events: seq<Event>, k: nat)
    requires k < |Run(rx, events).frames|
    ensures var f := Run(rx, events).frames[k]; |f| >= 3 && IsFrame(f, 0, |f|)
    decreases |events|
  {
    hide Find, MbusFrom, IsFrame;
    var turn := Step(rx, events[0]);
    if turn.frame.Some? {
      var buf := rx + events[0].bytes;
      FoundBounds(buf);
      var p := Find(buf).value;
      if k == 0 {
        FrameAlone(buf, p.start, p.end);
      } else {
        FramesAreFramed(turn.rx, events[1..], k - 1);
      }
    } else {
      FramesAreFramed(turn.rx, events[1..], k);
    }
  }

  /** From an empty buffer: at every moment the bodies taken out are a prefix of the bodies of the stream. */
  lemma TakenArePrefix(events: seq<Event>)
    requires KeepsFlags([], events)
    ensures InnerAll(Run([], events).frames) <= Bodies(Stream(events), FLAG)
  {
    hide Bodies, Run;
    assert [] + Stream(events) == Stream(events) == Stream(events) + [];
    RunRefinesSplitting([], events, []);
  }
}
