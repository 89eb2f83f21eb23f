/** `wait_for_frame` of `dlms_client.c`: collecting UART reads until a frame parses. The reads that happen
    before the timeout are a parameter; a read that times out by itself is an empty one. */
module Receiver {
  import opened Bytes
  import Fcs16
  import Splitting
  import opened Hdlc
  import opened HdlcParser
  import HdlcRoundTrip
  import opened FrameFinder

  const RX_BUFFER_SIZE := 2048
  const READ_SIZE := 256

  /** The buffer after appending as much of a read as fits. */
  function Appended(rx: seq<byte>, read: seq<byte>): (buf: seq<byte>)
    requires |rx| <= RX_BUFFER_SIZE
    ensures |buf| <= RX_BUFFER_SIZE
  {
    rx + read[..Min(|read|, RX_BUFFER_SIZE - |rx|)]
  }

  lemma FoundInside(buf: seq<byte>)
    requires Find(buf).Some?
    ensures var p := Find(buf).value; p.start + 3 <= p.end <= |buf|
  {
    FindIsLeftmost(buf);
  }

  /** The frame that waiting returns, from a buffer holding `rx` and the chunks to come. */
  function Wait(rx: seq<byte>, chunks: seq<seq<byte>>): Option<Frame>
    requires |rx| <= RX_BUFFER_SIZE
    decreases |chunks|
  {
    if chunks == [] then None
    else if chunks[0] == [] then Wait(rx, chunks[1..])
    else
      var buf := Appended(rx, chunks[0]);
      match Find(buf)
      case None => Wait(buf, chunks[1..])
      case Some(p) =>
        FoundInside(buf);
        var f := Parse(buf[p.start..p.end]);
        if f.Some? then f else Wait(buf[p.end..], chunks[1..])
  }

  class Client {
    const rxBuffer: array<byte>
    var rxLen: nat

    constructor ()
      ensures Valid() && fresh(rxBuffer)
    {
      rxBuffer := new byte[RX_BUFFER_SIZE];
      rxLen := 0;
    }

    ghost predicate Valid()
      reads this
    {
      rxBuffer.Length == RX_BUFFER_SIZE && rxLen <= RX_BUFFER_SIZE
    }

    ghost function Received(): seq<byte>
      requires Valid()
      reads this, rxBuffer
    {
      rxBuffer[..rxLen]
    }

    /** Appending a read, truncated to the space left. */
    method Append(read: seq<byte>)
      requires Valid()
      modifies this`rxLen, rxBuffer
      ensures Valid() && Received() == Appended(old(Received()), read)
    {
      var space := RX_BUFFER_SIZE - rxLen;
      var copy := if |read| < space then |read| else space;
      forall i | 0 <= i < copy { rxBuffer[rxLen + i] := read[i]; }
      rxLen := rxLen + copy;
    }

    /** Discarding the bytes up to `end`. */
    method Discard(end: nat)
      requires Valid() && end <= rxLen
      modifies this`rxLen, rxBuffer
      ensures Valid() && Received() == old(Received())[end..]
    {
      if end < rxLen {
        forall i | 0 <= i < rxLen - end { rxBuffer[i] := rxBuffer[end + i]; }
        rxLen := rxLen - end;
      } else {
        rxLen := 0;
      }
    }

    method WaitForFrame(chunks: seq<seq<byte>>, frame: FrameBuffer) returns (ok: bool)
      requires Valid() && frame.Valid() && frame.info != rxBuffer
      requires forall k :: 0 <= k < |chunks| ==> |chunks[k]| <= READ_SIZE
      modifies this`rxLen, rxBuffer, frame, frame.info
      ensures Valid() && frame.Valid()
      ensures ok <==> Wait([], chunks).Some?
      ensures ok ==> frame.Shows(Wait([], chunks).value)
    {
      hide Find, Parse, Appended;
      rxLen := 0;
      var k := 0;
      assert chunks[0..] == chunks;
      while k < |chunks|
        invariant Valid() && frame.Valid() && k <= |chunks|
        invariant Wait(Received(), chunks[k..]) == Wait([], chunks)
      {
        var read := chunks[k];
        assert chunks[k..][1..] == chunks[k + 1..];
        k := k + 1;
        if |read| > 0 {
          Append(read);
          var rc, frameStart, frameEnd := FindFrame(rxBuffer[..rxLen]);
          if rc == 0 {
            FoundInside(rxBuffer[..rxLen]);
            var parsed := ParseFrame(rxBuffer[..rxLen][frameStart..frameEnd], frame);
            if parsed {
              return true;
            } else {
              Discard(frameEnd);
            }
          }
        }
      }
      return false;
    }
  }

  // ---------- Reception does not depend on how the bytes are cut into reads ----------

  function Framed(body: seq<byte>): seq<byte> { [FLAG] + body + [FLAG] }

  lemma ReadBefore<T>(rx: seq<T>, read: seq<T>, later: seq<T>, whole: seq<T>, rest: seq<T>)
    requires rx + (read + later) == whole + rest && |rx| <= |whole|
    ensures |rx + read| < |whole| ==> rx + read == whole[..|rx + read|]
    ensures forall n :: |whole| <= n <= |rx + read| ==> (rx + read)[..n] == whole + rest[..n - |whole|]
  {
    assert rx + (read + later) == (rx + read) + later;
    forall n | |whole| <= n <= |rx + read| ensures (rx + read)[..n] == whole + rest[..n - |whole|] {
      assert (rx + read)[..n] == ((rx + read) + later)[..n];
      assert (whole + rest)[..n] == whole + rest[..n - |whole|];
    }
    if |rx + read| < |whole| {
      assert (rx + read) == ((rx + read) + later)[..|rx + read|];
    }
  }

  lemma {:induction false} FrameArrives(rx: seq<byte>, chunks: seq<seq<byte>>, noise: seq<byte>, body: seq<byte>,
      rest: seq<byte>)
    requires NoFlag(noise) && NoFlag(body) && |body| >= 1
    requires |noise| + |body| + 2 <= RX_BUFFER_SIZE
    requires |rx| < |noise| + |body| + 2
    requires rx + Concat(chunks) == (noise + Framed(body)) + rest
    requires Parse(Framed(body)).Some?
    ensures Wait(rx, chunks) == Parse(Framed(body))
    decreases |chunks|
  {
    hide Parse, Find, NoFlag;
    var whole := noise + Framed(body);
    if chunks == [] {
      assert false;
    } else if chunks[0] == [] {
      assert Concat(chunks) == Concat(chunks[1..]);
      FrameArrives(rx, chunks[1..], noise, body, rest);
    } else {
      var read := chunks[0];
      ReadBefore(rx, read, Concat(chunks[1..]), whole, rest);
      var buf := Appended(rx, read);
      assert buf == (rx + read)[..|buf|];
      if |buf| < |whole| {
        assert buf == rx + read;
        FindNoneBefore(noise, body, |buf|);
        assert buf + Concat(chunks[1..]) == rx + Concat(chunks);
        FrameArrives(buf, chunks[1..], noise, body, rest);
      } else {
        FindAfterNoise(noise, body, rest[..|buf| - |whole|]);
        assert buf[|noise|..|noise| + |body| + 2] == Framed(body);
      }
    }
  }

  lemma BodyNotEmpty(body: seq<byte>)
    requires Parse(Framed(body)).Some?
    ensures |body| >= 3
  {
    hide Fcs16.Verify, StripLlc, ControlAt;
  }

  /** A valid frame without a flag in its body is returned after any flag-free noise, under every way of
      cutting noise, frame and whatever follows into chunks, as long as noise and frame fit the buffer. */
  lemma AnyChunking(chunks: seq<seq<byte>>, noise: seq<byte>, body: seq<byte>, rest: seq<byte>)
    requires NoFlag(noise) && NoFlag(body) && |noise| + |body| + 2 <= RX_BUFFER_SIZE
    requires Concat(chunks) == noise + Framed(body) + rest
    requires Parse(Framed(body)).Some?
    ensures Wait([], chunks) == Parse(Framed(body))
  {
    hide Parse, Find;
    assert [] + Concat(chunks) == (noise + Framed(body)) + rest;
    BodyNotEmpty(body);
    FrameArrives([], chunks, noise, body, rest);
  }

  lemma TruncatedRead<T>(rx: seq<T>, read: seq<T>, later: seq<T>, whole: seq<T>, rest: seq<T>, n: nat)
    requires rx + (read + later) == whole + rest && n <= |rx + read| && n <= |whole|
    ensures (rx + read)[..n] == whole[..n] && (n == |rx + read| ==> whole[..n] + later == whole + rest)
  {
    assert (rx + read) + later == whole + rest;
    assert (rx + read)[..n] == ((rx + read) + later)[..n] == (whole + rest)[..n] == whole[..n];
  }

  /** With noise and frame too long for the buffer, nothing is ever found in what is kept of them. */
  lemma {:induction false} TooLongIsLost(rx: seq<byte>, chunks: seq<seq<byte>>, noise: seq<byte>, body: seq<byte>,
      rest: seq<byte>)
    requires NoFlag(noise) && NoFlag(body) && |noise| + |body| + 2 > RX_BUFFER_SIZE
    requires |rx| <= RX_BUFFER_SIZE && rx == (noise + Framed(body))[..|rx|]
    requires |rx| == RX_BUFFER_SIZE || rx + Concat(chunks) == (noise + Framed(body)) + rest
    ensures Wait(rx, chunks).None?
    decreases |chunks|
  {
    hide Parse, Find, NoFlag;
    var whole := noise + Framed(body);
    if chunks != [] {
      var read, later := chunks[0], Concat(chunks[1..]);
      var buf := Appended(rx, read);
      var n := |buf|;
      if |rx| < RX_BUFFER_SIZE {
        assert rx + (read + later) == whole + rest;
        assert buf == (rx + read)[..n];
        TruncatedRead(rx, read, later, whole, rest, n);
      }
      FindNoneBefore(noise, body, n);
      if read == [] { assert buf == rx; }
      TooLongIsLost(buf, chunks[1..], noise, body, rest);
    }
  }

  /** A valid frame behind flag-free noise is returned under every way of cutting them, and whatever follows, into
      reads if and only if noise and frame fit the buffer; otherwise it is under none. */
  lemma ArrivesIff(noise: seq<byte>, body: seq<byte>, rest: seq<byte>)
    requires NoFlag(noise) && NoFlag(body) && Parse(Framed(body)).Some?
    ensures var x, fits := noise + Framed(body) + rest, |noise| + |body| + 2 <= 2048;
      ((forall chunks :: Concat(chunks) == x ==> Wait([], chunks) == Parse(Framed(body))) <==> fits)
      && (!fits ==> forall chunks :: Concat(chunks) == x ==> Wait([], chunks).None?)
  {
    hide Parse, Find, NoFlag, Wait, Framed;
    var x := noise + Framed(body) + rest;
    if |noise| + |body| + 2 <= RX_BUFFER_SIZE {
      forall chunks | Concat(chunks) == x ensures Wait([], chunks) == Parse(Framed(body)) {
        AnyChunking(chunks, noise, body, rest);
      }
    } else {
      forall chunks | Concat(chunks) == x ensures Wait([], chunks).None? {
        assert [] + Concat(chunks) == x && [] == (noise + Framed(body))[..0];
        TooLongIsLost([], chunks, noise, body, rest);
      }
      assert Concat(Singles(x)) == x;
    }
  }

  // ---------- Any bytes at all ----------

  /** The first frame that parses when the bytes are searched from frame to frame. */
  function FirstParsed(x: seq<byte>): Option<Frame>
    decreases |x|
  {
    match Find(x)
    case None => None
    case Some(p) =>
      FoundInside(x);
      var f := Parse(x[p.start..p.end]);
      if f.Some? then f else FirstParsed(x[p.end..])
  }

  /** A frame that is found early is the one that is found later, and leaves the same behind. */
  lemma FoundEarly(buf: seq<byte>, later: seq<byte>)
    requires Find(buf).Some?
    ensures var p := Find(buf).value;
      p.start + 3 <= p.end <= |buf| && Find(buf + later) == Some(p)
      && (buf + later)[p.start..p.end] == buf[p.start..p.end] && (buf + later)[p.end..] == buf[p.end..] + later
  {
    hide Find;
    FoundInside(buf);
    FindStable(buf, later);
  }

  /** Whatever arrives and however it is cut, nothing else than the first frame that parses is ever returned. */
  lemma {:induction false} NothingElseReceived(rx: seq<byte>, chunks: seq<seq<byte>>)
    requires |rx + Concat(chunks)| <= RX_BUFFER_SIZE
    ensures Wait(rx, chunks).None? || Wait(rx, chunks) == FirstParsed(rx + Concat(chunks))
    decreases |chunks|
  {
    hide Find, Parse;
    if chunks != [] {
      var later := Concat(chunks[1..]);
      var buf := rx + chunks[0];
      assert rx + Concat(chunks) == buf + later;
      if chunks[0] == [] {
        assert buf == rx;
        NothingElseReceived(rx, chunks[1..]);
      } else {
        assert Appended(rx, chunks[0]) == buf;
        if Find(buf).Some? {
          FoundEarly(buf, later);
          NothingElseReceived(buf[Find(buf).value.end..], chunks[1..]);
        } else {
          NothingElseReceived(buf, chunks[1..]);
        }
      }
    }
  }

  lemma FrameInPrefix(buf: seq<byte>, later: seq<byte>, s: nat, e: nat)
    requires IsFrame(buf + later, s, e) && e <= |buf|
    ensures IsFrame(buf, s, e)
  {
    SliceOfPrefix(buf, later, s + 1, e - 1);
  }

  lemma NotYet(buf: seq<byte>, later: seq<byte>)
    requires Find(buf + later).Some? && Find(buf).None?
    ensures Find(buf + later).value.end > |buf|
  {
    hide Find;
    var p := Find(buf + later).value;
    FindIsLeftmost(buf + later);
    FindIsLeftmost(buf);
    if p.end <= |buf| { FrameInPrefix(buf, later, p.start, p.end); }
  }

  lemma FindNothing()
    ensures Find([]).None?
  {
  }

  /** Read octet by octet, the first frame that parses is returned. */
  lemma {:induction false} OctetByOctet(rx: seq<byte>, s: seq<byte>)
    requires Find(rx).None? && |rx + s| <= RX_BUFFER_SIZE
    ensures Wait(rx, Singles(s)) == FirstParsed(rx + s)
    decreases |s|
  {
    hide Find, Parse;
    if s == [] {
      assert rx + s == rx;
    } else {
      var buf := rx + [s[0]];
      assert Appended(rx, [s[0]]) == buf && buf + s[1..] == rx + s;
      assert Singles(s)[1..] == Singles(s[1..]);
      if Find(buf).Some? {
        FoundEarly(buf, s[1..]);
        NotYet(rx, [s[0]]);
        assert buf[Find(buf).value.end..] == [];
        FindNothing();
        OctetByOctet([], s[1..]);
      } else {
        OctetByOctet(buf, s[1..]);
      }
    }
  }

  predicate Within(chunks: seq<seq<byte>>, limit: nat) { forall k :: 0 <= k < |chunks| ==> |chunks[k]| <= limit }

  /** How much of `x` the buffer may hold before the read that completes its first frame, if `early` octets may
      be there to begin with. */
  function MayHold(x: seq<byte>, early: nat): (n: nat)
    ensures n >= early
    ensures Find(x).Some? ==> n + 1 >= Find(x).value.end
  {
    match Find(x)
    case None => early
    case Some(p) => FoundInside(x); Max(p.end - 1, early)
  }

  /** Of `x` up to `early` octets may be in the buffer already when its first frame is looked for. A frame is
      looked for only after a read, so one that may have been read to the end together with the frame before
      it is not looked for in time. */
  predicate InTime(x: seq<byte>, early: nat, limit: nat)
    requires limit >= 1
    decreases |x|
  {
    early < |x|
    && match Find(x)
       case None => false
       case Some(p) =>
         FoundInside(x);
         Parse(x[p.start..p.end]).Some? || InTime(x[p.end..], MayHold(x, early) + limit - p.end, limit)
  }

  lemma {:induction false} InTimeReceived(rx: seq<byte>, chunks: seq<seq<byte>>, early: nat, limit: nat)
    requires limit >= 1 && Within(chunks, limit) && |rx + Concat(chunks)| <= RX_BUFFER_SIZE
    requires var x := rx + Concat(chunks); InTime(x, early, limit) && |rx| <= MayHold(x, early)
    ensures Wait(rx, chunks) == FirstParsed(rx + Concat(chunks))
    decreases |chunks|
  {
    hide Find, Parse;
    var x := rx + Concat(chunks);
    FoundInside(x);
    if chunks == [] {
      assert false;
    } else {
      var later := Concat(chunks[1..]);
      var buf := rx + chunks[0];
      assert x == buf + later;
      assert Within(chunks[1..], limit);
      if chunks[0] == [] {
        assert buf == rx;
        InTimeReceived(rx, chunks[1..], early, limit);
      } else {
        assert Appended(rx, chunks[0]) == buf;
        var p := Find(x).value;
        if Find(buf).Some? {
          FoundEarly(buf, later);
          if Parse(buf[p.start..p.end]).None? {
            assert |chunks[0]| <= limit;
            InTimeReceived(buf[p.end..], chunks[1..], MayHold(x, early) + limit - p.end, limit);
          }
        } else {
          NotYet(buf, later);
          InTimeReceived(buf, chunks[1..], early, limit);
        }
      }
    }
  }

  /** Reading up to where a frame is still missing an octet finds nothing. */
  lemma {:induction false} ReadSingly(x: seq<byte>, from: nat, to: nat, chunks: seq<seq<byte>>)
    requires from <= to <= |x| <= RX_BUFFER_SIZE && (from < to ==> Find(x).Some? && to < Find(x).value.end)
    ensures Wait(x[..from], Singles(x[from..to]) + chunks) == Wait(x[..to], chunks)
    decreases |x| - from
  {
    hide Find, Parse;
    if from == to {
      assert Singles(x[from..to]) + chunks == chunks;
    } else {
      var all := Singles(x[from..to]) + chunks;
      assert x[from..to][1..] == x[from + 1..to];
      assert all[0] == [x[from]] && all[1..] == Singles(x[from + 1..to]) + chunks;
      var buf := x[..from + 1];
      assert Appended(x[..from], [x[from]]) == x[..from] + [x[from]] == buf;
      assert buf + x[from + 1..] == x;
      if Find(buf).Some? {
        FoundEarly(buf, x[from + 1..]);
      } else {
        ReadSingly(x, from + 1, to, chunks);
      }
    }
  }

  lemma WithinSingles(s: seq<byte>, limit: nat)
    requires limit >= 1
    ensures Within(Singles(s), limit)
  {
  }

  /** One read that completes a frame which does not parse. */
  lemma ReadPast(x: seq<byte>, from: nat, n: nat, chunks: seq<seq<byte>>)
    requires n >= 1 && from + n <= |x| <= RX_BUFFER_SIZE && Find(x).Some?
    requires var p := Find(x).value; p.start <= p.end <= from + n && Parse(x[p.start..p.end]).None?
    ensures Wait(x[..from], [x[from..from + n]] + chunks) == Wait(x[Find(x).value.end..from + n], chunks)
  {
    hide Find, Parse;
    var p, buf, later := Find(x).value, x[..from + n], x[from + n..];
    assert x == buf + later;
    assert Appended(x[..from], x[from..from + n]) == x[..from] + x[from..from + n] == buf;
    assert ([x[from..from + n]] + chunks)[1..] == chunks;
    if Find(buf).None? { NotYet(buf, later); }
    FoundEarly(buf, later);
  }

  lemma LateStep(x: seq<byte>, early: nat, limit: nat)
    requires limit >= 1 && FirstParsed(x).Some? && !InTime(x, early, limit) && early < |x|
    ensures Find(x).Some? && var p := Find(x).value;
      p.start + 3 <= p.end <= |x| && Parse(x[p.start..p.end]).None? && FirstParsed(x[p.end..]).Some?
      && p.end <= MayHold(x, early) + 1 <= |x| && !InTime(x[p.end..], MayHold(x, early) + limit - p.end, limit)
      && (early < MayHold(x, early) ==> MayHold(x, early) < p.end)
  {
    hide Find, Parse;
    FoundInside(x);
  }

  lemma Cuts<T>(x: seq<T>, a: nat, b: nat, c: nat)
    requires a <= b <= c <= |x|
    ensures x[a..b] + (x[b..c] + x[c..]) == x[a..] && x[a..][..b - a] == x[a..b] && x[a..][b - a..] == x[b..]
  {
  }

  lemma LateConcat(x: seq<byte>, early: nat, from: nat, to: nat, more: seq<seq<byte>>)
    requires early <= from <= to <= |x| && Concat(more) == x[to..]
    ensures Concat(Singles(x[early..from]) + ([x[from..to]] + more)) == x[early..]
  {
    hide Singles;
    var tail := [x[from..to]] + more;
    assert tail[1..] == more;
    hide Concat;
    assert Concat(tail) == x[from..to] + x[to..] by { ConcatCons(x[from..to], more); }
    ConcatAppend(Singles(x[early..from]), tail);
    Cuts(x, early, from, to);
  }

  lemma LateWithin(s: seq<byte>, read: seq<byte>, more: seq<seq<byte>>, limit: nat)
    requires 1 <= limit && |read| <= limit && Within(more, limit)
    ensures Within(Singles(s) + ([read] + more), limit)
  {
    hide Singles;
    WithinSingles(s, limit);
  }

  /** Octet by octet up to the last one of a frame that does not parse, and then as much as one read can bring. */
  lemma LateReads(x: seq<byte>, early: nat, from: nat, n: nat, limit: nat, more: seq<seq<byte>>)
    requires 1 <= n <= limit && early <= from && from + n <= |x| <= RX_BUFFER_SIZE && Find(x).Some?
    requires var p := Find(x).value;
      p.start <= p.end <= from + n && Parse(x[p.start..p.end]).None? && (early < from ==> from < p.end)
      && Within(more, limit) && Concat(more) == x[from + n..] && Wait(x[p.end..from + n], more).None?
    ensures var chunks := Singles(x[early..from]) + ([x[from..from + n]] + more);
      Within(chunks, limit) && Concat(chunks) == x[early..] && Wait(x[..early], chunks).None?
  {
    hide Find, Parse, Wait, Singles, Concat, Within;
    ReadSingly(x, early, from, [x[from..from + n]] + more);
    ReadPast(x, from, n, more);
    LateWithin(x[early..from], x[from..from + n], more, limit);
    LateConcat(x, early, from, from + n, more);
  }

  lemma ReadNothing(x: seq<byte>, limit: nat)
    requires |x| <= RX_BUFFER_SIZE
    ensures Within([], limit) && Concat([]) == x[|x|..] && Wait(x[..|x|], []).None?
  {
  }

  /** Reads under which a frame that may come too late does. */
  lemma {:induction false} ReadLate(x: seq<byte>, early: nat, limit: nat) returns (chunks: seq<seq<byte>>)
    requires limit >= 1 && |x| <= RX_BUFFER_SIZE && FirstParsed(x).Some? && !InTime(x, early, limit)
    ensures var from := Min(early, |x|);
      Within(chunks, limit) && Concat(chunks) == x[from..] && Wait(x[..from], chunks).None?
    decreases |x|
  {
    hide Find, Parse, InTime, FirstParsed, MayHold, Singles, Wait, Concat, Within;
    if early >= |x| {
      chunks := [];
      ReadNothing(x, limit);
    } else {
      LateStep(x, early, limit);
      var p := Find(x).value;
      var from := MayHold(x, early);
      var n := Min(limit, |x| - from);
      var rest := x[p.end..];
      var more := ReadLate(rest, from + limit - p.end, limit);
      Cuts(x, p.end, from + n, from + n);
      LateReads(x, early, from, n, limit, more);
      chunks := Singles(x[early..from]) + ([x[from..from + n]] + more);
    }
  }

  /** Whether what arrives is received does not depend on how it is cut into reads of at most `limit` octets
      exactly when the first frame that parses comes in time. */
  lemma ReceivedIff(x: seq<byte>, limit: nat)
    requires limit >= 1 && |x| <= RX_BUFFER_SIZE && FirstParsed(x).Some?
    ensures (forall chunks :: Within(chunks, limit) && Concat(chunks) == x ==> Wait([], chunks) == FirstParsed(x))
       <==> InTime(x, 0, limit)
  {
    hide Find, Parse, InTime, Wait, FirstParsed;
    if InTime(x, 0, limit) {
      forall chunks | Within(chunks, limit) && Concat(chunks) == x ensures Wait([], chunks) == FirstParsed(x) {
        assert [] + Concat(chunks) == x;
        InTimeReceived([], chunks, 0, limit);
      }
    } else {
      var chunks := ReadLate(x, 0, limit);
      assert x[..0] == [] && x[0..] == x;
    }
  }

  /** It is lost under every way of cutting it exactly when no frame parses. */
  lemma NeverReceivedIff(x: seq<byte>)
    requires |x| <= RX_BUFFER_SIZE
    ensures (forall chunks :: Concat(chunks) == x ==> Wait([], chunks).None?) <==> FirstParsed(x).None?
  {
    hide Find, Parse, Wait, FirstParsed;
    if FirstParsed(x).None? {
      forall chunks | Concat(chunks) == x ensures Wait([], chunks).None? {
        assert [] + Concat(chunks) == x;
        NothingElseReceived([], chunks);
      }
    } else {
      FindNothing();
      OctetByOctet([], x);
      assert [] + x == x;
      assert Concat(Singles(x)) == x;
    }
  }

  // ---------- A frame behind any noise ----------

  /** A frame behind any noise, flags included, is returned under every way of cutting both into reads of at most
      `limit` octets exactly when it is what the search from frame to frame arrives at, and in time. */
  lemma FrameReceivedIff(noise: seq<byte>, body: seq<byte>, limit: nat)
    requires limit >= 1 && Parse(Framed(body)).Some? && |noise + Framed(body)| <= RX_BUFFER_SIZE
    ensures var x, f := noise + Framed(body), Parse(Framed(body));
      (forall chunks :: Within(chunks, limit) && Concat(chunks) == x ==> Wait([], chunks) == f)
      <==> FirstParsed(x) == f && InTime(x, 0, limit)
  {
    hide Find, Parse, InTime, Wait, FirstParsed, Framed;
    var x, f := noise + Framed(body), Parse(Framed(body));
    FindNothing();
    OctetByOctet([], x);
    assert [] + x == x;
    WithinSingles(x, limit);
    assert Concat(Singles(x)) == x;
    if FirstParsed(x) == f { ReceivedIff(x, limit); }
  }

  lemma {:induction false} WithinAll(chunks: seq<seq<byte>>)
    ensures Within(chunks, |Concat(chunks)|)
    decreases |chunks|
  {
    if chunks != [] {
      WithinAll(chunks[1..]);
      forall k | 0 <= k < |chunks| ensures |chunks[k]| <= |Concat(chunks)| {
        if k > 0 { assert chunks[k] == chunks[1..][k - 1]; }
      }
    }
  }

  /** The bytes of the first frame found. */
  function FirstFound(x: seq<byte>): seq<byte> {
    match Find(x)
    case None => []
    case Some(p) => FoundInside(x); x[p.start..p.end]
  }

  lemma ParseNothing()
    ensures Parse([]).None?
  {
    hide Fcs16.Verify;
  }

  lemma OneReadForAll(x: seq<byte>, f: Option<Frame>)
    requires f.Some? && x != []
    ensures FirstParsed(x) == f && InTime(x, 0, |x|) <==> Parse(FirstFound(x)) == f
  {
    ParseNothing();
    hide Find, Parse;
    if Find(x).Some? { FoundInside(x); }
  }

  /** Over reads of any size this comes down to the first frame found: the frame is returned however both are cut
      exactly when what is found first parses to the same. */
  lemma AnyReadsIff(noise: seq<byte>, body: seq<byte>)
    requires Parse(Framed(body)).Some? && |noise + Framed(body)| <= RX_BUFFER_SIZE
    ensures var x, f := noise + Framed(body), Parse(Framed(body));
      (forall chunks :: Concat(chunks) == x ==> Wait([], chunks) == f) <==> Parse(FirstFound(x)) == f
  {
    hide Find, Parse, InTime, Wait, FirstParsed, FirstFound;
    var x, f := noise + Framed(body), Parse(Framed(body));
    FrameReceivedIff(noise, body, |x|);
    OneReadForAll(x, f);
    forall chunks | Concat(chunks) == x ensures Within(chunks, |x|) { WithinAll(chunks); }
  }

  lemma FoundBehindFill(noise: seq<byte>, fill: seq<byte>, body: seq<byte>)
    requires NoFlag(noise) && (forall k :: 0 <= k < |fill| ==> fill[k] == FLAG) && NoFlag(body) && body != []
    ensures FirstFound(noise + fill + Framed(body)) == Framed(body)
  {
    hide Find;
    var x, n := noise + fill + Framed(body), |noise| + |fill|;
    assert x[n + 1..|x| - 1] == body;
    assert forall k :: 0 <= k < |noise| ==> x[k] == noise[k];
    assert forall k :: |noise| <= k <= n ==> x[k] == FLAG;
    forall s: nat, e: nat | IsFrame(x, s, e) ensures n <= s {
      if |noise| <= s < n { Splitting.SeparatorInside(x, FLAG, s + 1, e - 1, s + 1); }
    }
    FindUnique(x, n, |x|);
    assert x[n..|x|] == Framed(body);
  }

  /** Flag-free noise and any number of fill flags before a frame do no harm, however all is cut. */
  lemma FillFlagsHarmless(chunks: seq<seq<byte>>, noise: seq<byte>, fill: seq<byte>, body: seq<byte>)
    requires NoFlag(noise) && (forall k :: 0 <= k < |fill| ==> fill[k] == FLAG) && NoFlag(body)
    requires Parse(Framed(body)).Some? && |noise + fill + Framed(body)| <= RX_BUFFER_SIZE
    requires Concat(chunks) == noise + fill + Framed(body)
    ensures Wait([], chunks) == Parse(Framed(body))
  {
    BodyNotEmpty(body);
    hide Find, Parse, Wait, NoFlag, FirstFound;
    FoundBehindFill(noise, fill, body);
    AnyReadsIff(noise + fill, body);
  }

  lemma FramedSlices(a: seq<byte>, b: seq<byte>)
    ensures var x := Framed(a) + (b + [FLAG]); x[0..|a| + 2] == Framed(a) && x[|a| + 2..] == b + [FLAG]
  {
  }

  lemma OneFlagOnly(body: seq<byte>)
    requires NoFlag(body)
    ensures Find(body + [FLAG]).None?
  {
    hide Find;
    FindIsLeftmost(body + [FLAG]);
  }

  /** A flag and junk that happens not to parse do: the flag that opens the frame is used up as the closing flag
      of the junk, and the frame is lost under every way of cutting the bytes into reads. */
  lemma StrayFlagLosesFrame(chunks: seq<seq<byte>>, junk: seq<byte>, body: seq<byte>)
    requires NoFlag(junk) && junk != [] && NoFlag(body) && Parse(Framed(junk)).None?
    requires |junk| + |body| + 3 <= RX_BUFFER_SIZE && Concat(chunks) == [FLAG] + junk + Framed(body)
    ensures Wait([], chunks).None?
  {
    hide Parse, Find, Wait;
    var x := [FLAG] + junk + Framed(body);
    assert x == [] + Framed(junk) + (body + [FLAG]) == Framed(junk) + (body + [FLAG]);
    FindAfterNoise([], junk, body + [FLAG]);
    FramedSlices(junk, body);
    OneFlagOnly(body);
    assert FirstParsed(x) == FirstParsed(body + [FLAG]);
    NeverReceivedIff(x);
  }

  lemma WholeFoundIff(body: seq<byte>)
    requires |body| >= 1
    ensures Find(Framed(body)) == Some(Span(0, |body| + 2)) <==> NoFlag(body)
  {
    hide Find;
    var w := Framed(body);
    assert w == [] + w + [] && w[1..|w| - 1] == body;
    if NoFlag(body) { FindAfterNoise([], body, []); }
    FindIsLeftmost(w);
  }

  /** The finder cuts out a frame exactly when the frame has no flag between its flags: there is no
      octet transparency. */
  lemma BuiltFrameFoundIff(a: Addresses, control: byte, info: seq<byte>)
    ensures var w := Wire(a, control, info);
      Find(w) == Some(Span(0, |w|)) <==> NoFlag(w[1..|w| - 1])
  {
    hide Find, Covered, FcsOctets, NoFlag;
    var d := Covered(a, control, info);
    HdlcRoundTrip.WireParts(a, control, info);
    assert Wire(a, control, info) == Framed(d + FcsOctets(d));
    hide Wire;
    WholeFoundIff(d + FcsOctets(d));
  }

  lemma WireIsFramed(a: Addresses, control: byte, info: seq<byte>)
    ensures var w := Wire(a, control, info); |w| >= 2 && w == Framed(w[1..|w| - 1])
  {
    hide Covered, FcsOctets;
    var d := Covered(a, control, info);
    assert Wire(a, control, info) == Framed(d + FcsOctets(d));
  }

  /** Any type-3 frame that travels behind flag-free noise, cut in any way, arrives with its control octet and
      its information, LLC headers removed. */
  lemma BuiltFrameArrives(chunks: seq<seq<byte>>, noise: seq<byte>, rest: seq<byte>, a: Addresses, control: byte,
      info: seq<byte>)
    requires WellAddressed(a) && FrameLen(a, |info|) <= HdlcRoundTrip.MAX_FRAME_LEN
    requires var w := Wire(a, control, info);
      NoFlag(noise) && NoFlag(w[1..|w| - 1]) && |noise| + |w| <= RX_BUFFER_SIZE && Concat(chunks) == noise + w + rest
    ensures Wait([], chunks) == Some(Frame(control, StripLlc(info)))
  {
    hide Parse, Find, Wire, NoFlag, Framed, StripLlc;
    var w := Wire(a, control, info);
    WireIsFramed(a, control, info);
    HdlcRoundTrip.ParseWire(a, control, info);
    AnyChunking(chunks, noise, w[1..|w| - 1], rest);
  }

  /** What one side builds the other receives: an I-frame sent behind flag-free noise and cut in any way
      arrives with its sequence numbers and its APDU. */
  lemma IframeArrives(chunks: seq<seq<byte>>, noise: seq<byte>, rest: seq<byte>, r: Route, sendSeq: byte, recvSeq: byte,
                      apdu: seq<byte>)
    requires r.Supported() && sendSeq < 8 && recvSeq < 8 && |apdu| <= 509
    requires !(|apdu| >= 3 && apdu[0] == 0xE0 && apdu[2] == 0x00)
    requires var w := WireIframe(r, sendSeq, recvSeq, apdu);
      NoFlag(noise) && NoFlag(w[1..|w| - 1]) && |noise| + |w| <= RX_BUFFER_SIZE && Concat(chunks) == noise + w + rest
    ensures var f := Wait([], chunks);
      f.Some? && IsI(f.value.control) && SendSeq(f.value.control) == sendSeq && RecvSeq(f.value.control) == recvSeq
      && f.value.info == apdu
  {
    hide Parse, Find, Wire, NoFlag, IControl, IsI, SendSeq, RecvSeq, IframeInfo, Framed;
    var w := WireIframe(r, sendSeq, recvSeq, apdu);
    WireIsFramed(Addressed(r), IControl(sendSeq, recvSeq), IframeInfo(apdu));
    HdlcRoundTrip.IframeRoundTrip(r, sendSeq, recvSeq, apdu);
    AnyChunking(chunks, noise, w[1..|w| - 1], rest);
  }
}
