/** The line splitter of `am550_ascii_task`: a receive buffer that is cut at newlines in place. */
module LineAssembler {
  import opened Bytes
  import opened Splitting

  const BUFFER_SIZE := 1024
  const GIVE_UP := 1000
  const LF: byte := 0x0A
  const CR: byte := 0x0D

  /** A line without one trailing carriage return. */
  function Trim(line: seq<byte>): seq<byte> {
    if |line| > 0 && line[|line| - 1] == CR then line[..|line| - 1] else line
  }

  function TrimAll(lines: seq<seq<byte>>): seq<seq<byte>> {
    if lines == [] then [] else [Trim(lines[0])] + TrimAll(lines[1..])
  }

  lemma {:induction false} TrimAllConcat(a: seq<seq<byte>>, b: seq<seq<byte>>)
    ensures TrimAll(a + b) == TrimAll(a) + TrimAll(b)
  {
    if a == [] {
      assert a + b == b;
    } else {
      assert (a + b)[0] == a[0] && (a + b)[1..] == a[1..] + b;
      TrimAllConcat(a[1..], b);
    }
  }

  /** A C string: what comes before the first zero. */
  function UpToNul(s: seq<byte>): (t: seq<byte>)
    ensures |t| <= |s| && t == s[..|t|] && Lacks(t, 0)
    ensures |t| < |s| ==> s[|t|] == 0
  {
    if s == [] || s[0] == 0 then [] else [s[0]] + UpToNul(s[1..])
  }

  lemma {:induction false} NoNul(s: seq<byte>)
    requires Lacks(s, 0)
    ensures UpToNul(s) == s
  {
    if s != [] { NoNul(s[1..]); }
  }

  // ---------- One read ----------

  datatype Turn = Turn(rx: seq<byte>, lines: seq<seq<byte>>)

  predicate Feasible(rx: seq<byte>, bytes: seq<byte>) { 1 <= |bytes| <= BUFFER_SIZE - |rx| - 1 }

  /** The lines that a read completes, and what stays in the buffer. A zero hides everything after it. */
  function Step(rx: seq<byte>, bytes: seq<byte>): Turn {
    var buf := rx + bytes;
    var visible := UpToNul(buf);
    var consumed := |visible| - |Open(visible, LF)|;
    OpenLacks(visible, LF);
    Turn(if consumed > 0 then buf[consumed..] else if |buf| >= GIVE_UP then [] else buf,
         TrimAll(Closed(visible, LF)))
  }

  /** Whatever arrives, every read asks for at least one byte. */
  lemma RoomForARead(rx: seq<byte>, bytes: seq<byte>)
    requires |rx| <= 1022 && Feasible(rx, bytes)
    ensures |Step(rx, bytes).rx| <= 1022
  {
    hide Closed, Open, UpToNul;
  }

  lemma {:induction false} NulAt(s: seq<byte>, k: nat)
    requires k <= |s| && Lacks(s[..k], 0) && (k < |s| ==> s[k] == 0)
    ensures UpToNul(s) == s[..k]
    decreases k
  {
    if k > 0 {
      assert s[..k][0] == s[0];
      assert s[1..][..k - 1] == s[..k][1..];
      NulAt(s[1..], k - 1);
    }
  }

  lemma OpenShorter(s: seq<byte>)
    requires !Lacks(s, LF)
    ensures |Open(s, LF)| < |s|
  {
    hide Closed, Open;
    var k := FirstSeparator(s, LF);
    OpenAtSeparator(s[..k], LF, s[k + 1..]);
    OpenLacks(s[k + 1..], LF);
  }

  lemma {:induction false} OpenIsSuffix(s: seq<byte>)
    ensures |Open(s, LF)| <= |s| && Open(s, LF) == s[|s| - |Open(s, LF)|..]
    decreases |s|
  {
    if Lacks(s, LF) {
      PiecesOfOne(s, LF);
    } else {
      var k := FirstSeparator(s, LF);
      OpenIsSuffix(s[k + 1..]);
      OpenAtSeparator(s[..k], LF, s[k + 1..]);
    }
  }

  /** A zero hides what comes behind it: only the newlines before the first zero finish lines. */
  lemma ZeroHides(rx: seq<byte>, bytes: seq<byte>, a: seq<byte>, b: seq<byte>)
    requires rx + bytes == a + [0x00] + b && Lacks(a, 0x00)
    ensures Step(rx, bytes).lines == TrimAll(Closed(a, 0x0A))
    ensures !Lacks(a, 0x0A) ==> Step(rx, bytes).rx == Open(a, 0x0A) + [0x00] + b
  {
    hide Closed, Open, TrimAll, UpToNul;
    var buf := a + [0x00] + b;
    assert buf[..|a|] == a;
    NulAt(buf, |a|);
    if !Lacks(a, LF) {
      OpenShorter(a);
      OpenIsSuffix(a);
      assert buf[|a| - |Open(a, LF)|..] == a[|a| - |Open(a, LF)|..] + [0x00] + b;
    }
  }

  /** What the loop has done when it stands at `from`. */
  ghost predicate Taken(buf: seq<byte>, from: nat, lines: seq<seq<byte>>) {
    from <= |buf|
    && var v, w := UpToNul(buf), UpToNul(buf[from..]);
       TrimAll(Closed(v, LF)) == lines + TrimAll(Closed(w, LF)) && Open(v, LF) == Open(w, LF) && |v| == from + |w|
  }

  lemma NothingTaken(buf: seq<byte>)
    ensures Taken(buf, 0, [])
  {
    hide Closed, Open, UpToNul, TrimAll;
    assert buf[0..] == buf;
    assert TrimAll(Closed(UpToNul(buf), LF)) == [] + TrimAll(Closed(UpToNul(buf), LF));
  }

  /** A newline before any zero is visible, and so is what it makes visible. */
  lemma {:induction false} NulLater(s: seq<byte>, k: nat)
    requires k < |s| && Lacks(s[..k], 0) && s[k] == LF
    ensures k < |UpToNul(s)| && UpToNul(s)[..k] == s[..k] && UpToNul(s)[k] == LF
    ensures UpToNul(s[k + 1..]) == UpToNul(s)[k + 1..]
    decreases k
  {
    if k > 0 {
      assert s[..k][0] == s[0];
      assert s[1..][..k - 1] == s[..k][1..];
      NulLater(s[1..], k - 1);
      assert s[1..][k..] == s[k + 1..];
      var t := UpToNul(s[1..]);
      assert UpToNul(s) == [s[0]] + t;
      assert ([s[0]] + t)[k + 1..] == t[k..];
      assert ([s[0]] + t)[..k] == [s[0]] + t[..k - 1] == s[..k];
    } else {
      assert UpToNul(s) == [s[0]] + UpToNul(s[1..]);
    }
  }

  /** Up to its first newline, a text holds its first line. */
  lemma LineStep(rest: seq<byte>, n: nat)
    requires n < |rest| && Lacks(rest[..n], LF) && Lacks(rest[..n], 0) && rest[n] == LF
    ensures var v, w := UpToNul(rest), UpToNul(rest[n + 1..]);
      TrimAll(Closed(v, LF)) == [Trim(rest[..n])] + TrimAll(Closed(w, LF)) && Open(v, LF) == Open(w, LF)
        && |v| == n + 1 + |w|
  {
    hide Closed, Open, UpToNul, Trim;
    NulLater(rest, n);
    var v, w := UpToNul(rest), UpToNul(rest[n + 1..]);
    assert v == rest[..n] + [LF] + w;
    ClosedAtSeparator(rest[..n], LF, w);
    OpenAtSeparator(rest[..n], LF, w);
    assert ([rest[..n]] + Closed(w, LF))[1..] == Closed(w, LF);
  }

  lemma TakeOne(buf: seq<byte>, from: nat, to: nat, lines: seq<seq<byte>>)
    requires Taken(buf, from, lines) && from <= to < |buf|
    requires Lacks(buf[from..to], LF) && Lacks(buf[from..to], 0) && buf[to] == LF
    ensures Taken(buf, to + 1, lines + [Trim(buf[from..to])])
  {
    hide Closed, Open, UpToNul, Trim, TrimAll;
    var rest := buf[from..];
    assert buf[from..to] == rest[..to - from] && rest[to - from + 1..] == buf[to + 1..];
    LineStep(rest, to - from);
    Assoc(lines, [Trim(buf[from..to])], TrimAll(Closed(UpToNul(buf[to + 1..]), LF)));
  }

  lemma OpenOfOne(a: seq<byte>)
    requires Lacks(a, LF)
    ensures Open(a, LF) == a
  {
    PiecesOfOne(a, LF);
  }

  lemma NothingToTrim()
    ensures TrimAll([]) == []
  {
  }

  lemma TakenAll(buf: seq<byte>, from: nat, lines: seq<seq<byte>>)
    requires Taken(buf, from, lines) && Lacks(UpToNul(buf[from..]), LF)
    ensures lines == TrimAll(Closed(UpToNul(buf), LF)) && from == |UpToNul(buf)| - |Open(UpToNul(buf), LF)|
  {
    hide Closed, Open, UpToNul, TrimAll;
    var visible := UpToNul(buf[from..]);
    ClosedOfOne(visible, LF);
    OpenOfOne(visible);
    NothingToTrim();
    assert lines + [] == lines;
  }

  /** Cutting a line leaves what follows it as it was. */
  lemma AfterCut<T>(before: seq<T>, after: seq<T>, buf: seq<T>, from: nat, to: nat)
    requires from <= to < |buf| < |before| == |after|
    requires before[from..|buf|] == buf[from..] && after[to + 1..] == before[to + 1..]
    ensures before[from..to] == buf[from..to] && before[to] == buf[to]
    ensures after[to + 1..|buf|] == buf[to + 1..] && after[|buf|] == before[|buf|]
  {
    assert forall i :: from <= i < |buf| ==> before[i] == before[from..|buf|][i - from] == buf[i];
    assert forall i :: to < i < |after| ==> after[i] == after[to + 1..][i - to - 1] == before[i];
  }

  class Assembler {
    const rxBuf: array<byte>
    var rxLen: nat

    constructor ()
      ensures Valid() && fresh(rxBuf) && Received() == []
    {
      rxBuf := new byte[BUFFER_SIZE];
      rxLen := 0;
    }

    ghost predicate Valid()
      reads this
    {
      rxBuf.Length == BUFFER_SIZE && rxLen <= BUFFER_SIZE - 2
    }

    ghost function Received(): seq<byte>
      requires Valid()
      reads this, rxBuf
    {
      rxBuf[..rxLen]
    }

    /** `strchr` over the zero-terminated text that starts at `from`. */
    method FindChar(from: nat, end: nat, c: byte) returns (k: nat, found: bool)
      requires from <= end < rxBuf.Length && rxBuf[end] == 0 && c != 0
      ensures found ==> from <= k < end && rxBuf[k] == c && Lacks(rxBuf[from..k], c) && Lacks(rxBuf[from..k], 0)
      ensures !found ==> Lacks(UpToNul(rxBuf[from..end]), c)
    {
      k := from;
      found := false;
      ghost var text := rxBuf[from..end];
      while rxBuf[k] != 0
        invariant from <= k <= end
        invariant Lacks(rxBuf[from..k], c) && Lacks(rxBuf[from..k], 0)
        decreases end - k
      {
        if rxBuf[k] == c { return k, true; }
        assert rxBuf[from..k + 1] == rxBuf[from..k] + [rxBuf[k]];
        k := k + 1;
      }
      assert text[..k - from] == rxBuf[from..k];
      NulAt(text, k - from);
    }

    /** Cutting off the line that ends at a newline, in place. */
    method CutLine(lineStart: nat, lineEnd: nat) returns (line: seq<byte>)
      requires lineStart <= lineEnd < rxBuf.Length
      modifies rxBuf
      ensures line == Trim(old(rxBuf[lineStart..lineEnd]))
      ensures rxBuf[lineEnd + 1..] == old(rxBuf[lineEnd + 1..])
    {
      ghost var was := rxBuf[lineStart..lineEnd];
      rxBuf[lineEnd] := 0;
      var textEnd := lineEnd;
      if lineEnd > lineStart && rxBuf[lineEnd - 1] == CR {
        rxBuf[lineEnd - 1] := 0;
        textEnd := lineEnd - 1;
      }
      assert rxBuf[lineStart..textEnd] == was[..textEnd - lineStart];
      line := rxBuf[lineStart..textEnd];
    }

    /** The loop over the newlines in the buffer. */
    method TakeLines(ghost buf: seq<byte>) returns (lineStart: nat, lines: seq<seq<byte>>)
      requires |buf| == rxLen < rxBuf.Length && rxBuf[..rxLen] == buf && rxBuf[rxLen] == 0
      modifies rxBuf
      ensures lineStart <= rxLen && rxBuf[lineStart..rxLen] == buf[lineStart..]
      ensures lines == TrimAll(Closed(UpToNul(buf), LF))
      ensures lineStart == |UpToNul(buf)| - |Open(UpToNul(buf), LF)|
    {
      hide Closed, Open, UpToNul, Trim, TrimAll, Taken;
      lines := [];
      lineStart := 0;
      assert buf[0..] == buf == rxBuf[0..rxLen];
      NothingTaken(buf);
      var lineEnd, found := FindChar(lineStart, rxLen, LF);
      while found
        invariant rxLen == |buf| && rxBuf[rxLen] == 0
        invariant lineStart <= rxLen && rxBuf[lineStart..rxLen] == buf[lineStart..]
        invariant Taken(buf, lineStart, lines)
        invariant found ==> lineStart <= lineEnd < rxLen && rxBuf[lineEnd] == LF
        invariant found ==> Lacks(rxBuf[lineStart..lineEnd], LF) && Lacks(rxBuf[lineStart..lineEnd], 0)
        invariant !found ==> Lacks(UpToNul(buf[lineStart..]), LF)
        decreases rxLen - lineStart
      {
        ghost var before := rxBuf[..];
        var line := CutLine(lineStart, lineEnd);
        AfterCut(before, rxBuf[..], buf, lineStart, lineEnd);
        TakeOne(buf, lineStart, lineEnd, lines);
        lines := lines + [line];
        lineStart := lineEnd + 1;
        lineEnd, found := FindChar(lineStart, rxLen, LF);
      }
      TakenAll(buf, lineStart, lines);
    }

    /** `memmove` of the unfinished line to the front. */
    method Shift(start: nat)
      requires start <= rxLen <= rxBuf.Length
      modifies this`rxLen, rxBuf
      ensures rxLen == old(rxLen) - start && rxBuf[..rxLen] == old(rxBuf[start..rxLen])
    {
      forall i | 0 <= i < rxLen - start { rxBuf[i] := rxBuf[start + i]; }
      rxLen := rxLen - start;
    }

    /** A read to the end of the buffer, and a zero after it. */
    method Fill(bytes: seq<byte>)
      requires Valid() && Feasible(Received(), bytes)
      modifies this`rxLen, rxBuf
      ensures rxLen == old(rxLen) + |bytes| < rxBuf.Length
      ensures rxBuf[..rxLen] == old(Received()) + bytes && rxBuf[rxLen] == 0
    {
      forall i | 0 <= i < |bytes| { rxBuf[rxLen + i] := bytes[i]; }
      rxLen := rxLen + |bytes|;
      rxBuf[rxLen] := 0;
    }

    /** The body of the loop after a read that returned bytes; gives back the lines passed on. */
    method OnBytes(bytes: seq<byte>) returns (lines: seq<seq<byte>>)
      requires Valid() && Feasible(Received(), bytes)
      modifies this`rxLen, rxBuf
      ensures Valid()
      ensures Turn(Received(), lines) == Step(old(Received()), bytes)
    {
      hide Closed, Open, UpToNul, TrimAll;
      RoomForARead(Received(), bytes);
      Fill(bytes);
      ghost var buf := rxBuf[..rxLen];
      var consumed;
      consumed, lines := TakeLines(buf);
      if consumed > 0 {
        Shift(consumed);
      } else if rxLen >= GIVE_UP {
        rxLen := 0;
      } else {
        assert rxBuf[..rxLen] == rxBuf[0..rxLen] == buf;
      }
    }
  }

  // ---------- Whole streams ----------

  function Run(rx: seq<byte>, chunks: seq<seq<byte>>): Turn
    decreases |chunks|
  {
    if chunks == [] then Turn(rx, [])
    else
      var turn := Step(rx, chunks[0]);
      var rest := Run(turn.rx, chunks[1..]);
      Turn(rest.rx, turn.lines + rest.lines)
  }

  predicate FeasibleRun(rx: seq<byte>, chunks: seq<seq<byte>>)
    decreases |chunks|
  {
    chunks == [] || (Feasible(rx, chunks[0]) && FeasibleRun(Step(rx, chunks[0]).rx, chunks[1..]))
  }

  predicate Short(lines: seq<seq<byte>>) { forall k :: 0 <= k < |lines| ==> |lines[k]| < 1000 }

  lemma FirstLineLong(buf: seq<byte>, later: seq<byte>)
    requires Lacks(buf, LF) && |buf| >= GIVE_UP && !Lacks(later, LF)
    ensures !Short(Closed(buf + later, LF))
  {
    hide Closed;
    var k := FirstSeparator(later, LF);
    assert buf + later == (buf + later[..k]) + [LF] + later[k + 1..];
    ClosedAtSeparator(buf + later[..k], LF, later[k + 1..]);
    assert Closed(buf + later, LF)[0] == buf + later[..k];
  }

  /** One read of a stream without zeros whose lines are short: no line is given up. When an unfinished line is,
      no newline comes any more. */
  lemma ShortTurn(rx: seq<byte>, bytes: seq<byte>, later: seq<byte>)
    requires Lacks(rx + bytes + later, 0) && Short(Closed(rx + bytes + later, LF))
    ensures var turn, buf := Step(rx, bytes), rx + bytes;
      turn.lines == TrimAll(Closed(buf, LF))
      && (turn.rx == Open(buf, LF) || (turn.rx == [] && Closed(buf, LF) == [] && Lacks(later, LF)
        && |Open(buf, LF)| >= GIVE_UP))
  {
    hide Pieces, TrimAll, Closed, Open;
    var buf := rx + bytes;
    var s := buf + later;
    assert Lacks(buf, 0) by { assert forall k :: 0 <= k < |buf| ==> buf[k] == s[k]; }
    NoNul(buf);
    OpenIsSuffix(buf);
    if Lacks(buf, LF) {
      OpenOfOne(buf);
      ClosedOfOne(buf, LF);
      if |buf| >= GIVE_UP && !Lacks(later, LF) { FirstLineLong(buf, later); }
    } else {
      OpenShorter(buf);
    }
  }

  lemma ShortRest(buf: seq<byte>, rx: seq<byte>, later: seq<byte>)
    requires Lacks(buf + later, 0) && Short(Closed(buf + later, LF)) && rx == Open(buf, LF)
    ensures Closed(buf + later, LF) == Closed(buf, LF) + Closed(rx + later, LF)
    ensures Lacks(rx + later, 0) && Short(Closed(rx + later, LF)) && Lacks(rx, LF)
    ensures Open(buf + later, LF) == Open(rx + later, LF)
  {
    hide Closed, Open;
    ClosedResume(buf, LF, later);
    OpenIsSuffix(buf);
    OpenLacks(buf, LF);
    var s := buf + later;
    assert forall k :: 0 <= k < |rx + later| ==> (rx + later)[k] == s[|buf| - |rx| + k];
    var n, cs := |Closed(buf, LF)|, Closed(rx + later, LF);
    forall k | 0 <= k < |cs| ensures |cs[k]| < GIVE_UP { assert cs[k] == Closed(s, LF)[n + k]; }
  }

  /** An unfinished line that is given up, and nothing but the rest of it to come. */
  lemma GivenUp(buf: seq<byte>, later: seq<byte>)
    requires Closed(buf, LF) == [] && Lacks(later, LF) && |Open(buf, LF)| >= GIVE_UP && Lacks(buf + later, 0)
    ensures Closed(buf + later, LF) == [] && |Open(buf + later, LF)| >= GIVE_UP
    ensures Closed([] + later, LF) == [] && Short(Closed([] + later, LF)) && Lacks([] + later, 0)
    ensures TrimAll(Closed(buf, LF)) == []
  {
    hide Open;
    assert [] + later == later;
    ClosedOfOne(later, LF);
    OpenLacks(buf, LF);
    ClosedResume(buf, LF, later);
    var open := Open(buf, LF);
    assert Lacks(open + later, LF);
    ClosedOfOne(open + later, LF);
    OpenOfOne(open + later);
    assert forall k :: 0 <= k < |later| ==> later[k] == (buf + later)[|buf| + k];
  }

  lemma {:induction false} RunIsSplitting(rx: seq<byte>, chunks: seq<seq<byte>>)
    requires Lacks(rx, LF) && FeasibleRun(rx, chunks)
    requires Lacks(rx + Concat(chunks), 0) && Short(Closed(rx + Concat(chunks), LF))
    ensures var s := rx + Concat(chunks);
      Run(rx, chunks).lines == TrimAll(Closed(s, LF)) && (|Open(s, LF)| < GIVE_UP ==> Run(rx, chunks).rx == Open(s, LF))
    decreases |chunks|
  {
    hide Step, TrimAll, Short, Closed, Open;
    if chunks == [] {
      assert rx + [] == rx;
      OpenOfOne(rx);
      ClosedOfOne(rx, LF);
      NothingToTrim();
    } else {
      var bytes, later := chunks[0], Concat(chunks[1..]);
      assert rx + Concat(chunks) == rx + bytes + later;
      var buf, turn := rx + bytes, Step(rx, bytes);
      ShortTurn(rx, bytes, later);
      if turn.rx == Open(buf, LF) {
        ShortRest(buf, turn.rx, later);
        RunIsSplitting(turn.rx, chunks[1..]);
        TrimAllConcat(Closed(buf, LF), Closed(turn.rx + later, LF));
      } else {
        GivenUp(buf, later);
        RunIsSplitting([], chunks[1..]);
        assert [] + Run([], chunks[1..]).lines == Run([], chunks[1..]).lines;
      }
    }
  }

  /** For a stream without zeros whose finished lines have at most 999 bytes, the lines passed on are the stream
      cut at the newlines, one trailing carriage return removed from each, however the stream is cut into reads;
      and what is unfinished stays in the buffer unless it has 1000 bytes or more. */
  lemma LinesIndependentOfChunking(chunks: seq<seq<byte>>)
    requires FeasibleRun([], chunks)
    requires var s := Concat(chunks); Lacks(s, 0) && Short(Closed(s, LF))
    ensures var s := Concat(chunks);
      Run([], chunks).lines == TrimAll(Closed(s, LF)) && (|Open(s, LF)| < GIVE_UP ==> Run([], chunks).rx == Open(s, LF))
  {
    hide Closed, Open, Short, TrimAll, Run;
    assert [] + Concat(chunks) == Concat(chunks);
    RunIsSplitting([], chunks);
  }

  // ---------- The bound is sharp ----------

  /** The read that brings the newline. */
  lemma EndOfLine(rx: seq<byte>, a: seq<byte>)
    requires Lacks(rx + a, LF) && Lacks(rx + a, 0)
    ensures Step(rx, a + [LF]) == Turn([], [Trim(rx + a)])
  {
    hide Closed, Open, Trim;
    var line := rx + a;
    var buf := rx + (a + [LF]);
    assert buf == line + [LF] + [];
    NoNul(buf);
    ClosedAtSeparator(line, LF, []);
    OpenAtSeparator(line, LF, []);
    ClosedOfOne([], LF);
    OpenOfOne([]);
    assert [line][1..] == [];
    assert Closed(buf, LF) == [line] + Closed([], LF) == [line] && Open(buf, LF) == [];
    assert TrimAll([line]) == [Trim(line)] + TrimAll([line][1..]) == [Trim(line)];
    assert Step(rx, a + [LF]).rx == buf[|buf|..] == [];
  }

  lemma Newline(a: seq<byte>)
    requires Lacks(a, LF) && Lacks(a, 0)
    ensures Step([], a + [LF]) == Turn([], [Trim(a)])
  {
    assert [] + a == a;
    EndOfLine([], a);
  }

  lemma NoNewline(rx: seq<byte>, a: seq<byte>)
    requires Lacks(rx + a, LF) && Lacks(rx + a, 0)
    ensures Step(rx, a) == Turn(if |rx + a| >= GIVE_UP then [] else rx + a, [])
  {
    hide Closed, Open, Trim;
    var line := rx + a;
    NoNul(line);
    ClosedOfOne(line, LF);
    OpenOfOne(line);
  }

  lemma {:induction false} SinglesFeasible(rx: seq<byte>, s: seq<byte>)
    requires |rx| <= BUFFER_SIZE - 2
    ensures FeasibleRun(rx, Singles(s))
    decreases |s|
  {
    hide Step;
    if s != [] {
      RoomForARead(rx, [s[0]]);
      assert Singles(s)[1..] == Singles(s[1..]);
      SinglesFeasible(Step(rx, [s[0]]).rx, s[1..]);
    }
  }

  lemma TrimShortens(a: seq<byte>)
    ensures |a| - 1 <= |Trim(a)| <= |a|
  {
  }

  /** Read byte by byte, the first line to come is no longer than what it is made from. */
  lemma {:induction false} FirstLineBound(rx: seq<byte>, u: seq<byte>, rest: seq<byte>)
    requires Lacks(rx + u, LF) && Lacks(rx + u, 0)
    ensures var lines := Run(rx, Singles(u + [LF] + rest)).lines; lines != [] && |lines[0]| <= |rx| + |u|
    decreases |u|
  {
    hide Step, Trim;
    var s := u + [LF] + rest;
    var turn := Step(rx, [s[0]]);
    assert Singles(s)[1..] == Singles(s[1..]) && Singles(s)[0] == [s[0]];
    if u == [] {
      assert rx + [] == rx && [] + [LF] == [LF] == [s[0]];
      EndOfLine(rx, []);
      TrimShortens(rx);
    } else {
      assert s[1..] == u[1..] + [LF] + rest;
      assert forall k :: 0 <= k < |rx + [u[0]]| ==> (rx + [u[0]])[k] == (rx + u)[k];
      NoNewline(rx, [u[0]]);
      assert forall k :: 0 <= k < |turn.rx + u[1..]| ==> (turn.rx + u[1..])[k] in rx + u;
      FirstLineBound(turn.rx, u[1..], rest);
      var more := Run(turn.rx, Singles(s[1..])).lines;
      assert [] + more == more;
    }
  }

  lemma RunStep(rx: seq<byte>, bytes: seq<byte>, chunks: seq<seq<byte>>)
    ensures var turn := Step(rx, bytes); var rest := Run(turn.rx, chunks);
      Run(rx, [bytes] + chunks) == Turn(rest.rx, turn.lines + rest.lines)
  {
    hide Step;
    assert ([bytes] + chunks)[1..] == chunks;
  }

  lemma Halves(a: seq<byte>, n: nat)
    requires Lacks(a, LF) && Lacks(a, 0) && n <= |a|
    ensures a == a[..n] + a[n..] && [] + a[..n] == a[..n] && [] + a[n..] == a[n..]
    ensures Lacks(a[..n], LF) && Lacks(a[..n], 0) && Lacks(a[n..], LF) && Lacks(a[n..], 0)
  {
  }

  lemma FeasibleStep(rx: seq<byte>, bytes: seq<byte>, chunks: seq<seq<byte>>)
    requires Feasible(rx, bytes) && FeasibleRun(Step(rx, bytes).rx, chunks)
    ensures FeasibleRun(rx, [bytes] + chunks) && Concat([bytes] + chunks) == bytes + Concat(chunks)
  {
    hide Step;
    assert ([bytes] + chunks)[1..] == chunks;
  }

  /** A long line read as far as it fits, and the rest byte by byte. */
  lemma LongLineLost(a: seq<byte>, rest: seq<byte>) returns (chunks: seq<seq<byte>>)
    requires Lacks(a, LF) && Lacks(a, 0) && |a| >= GIVE_UP
    ensures FeasibleRun([], chunks) && Concat(chunks) == a + [LF] + rest
    ensures var lines := Run([], chunks).lines; lines != [] && |lines[0]| < |Trim(a)|
  {
    hide Step, Trim, FeasibleRun, Run, Concat;
    var n := Min(|a|, BUFFER_SIZE - 1);
    var head, u := a[..n], a[n..];
    var later := Singles(u + [LF] + rest);
    chunks := [head] + later;
    Halves(a, n);
    NoNewline([], head);
    FirstLineBound([], u, rest);
    RunStep([], head, later);
    TrimShortens(a);
    SinglesFeasible([], u + [LF] + rest);
    FeasibleStep([], head, later);
    Assoc(head, u, [LF]);
    Assoc(head, u + [LF], rest);
  }

  lemma ShortCons(a: seq<byte>, lines: seq<seq<byte>>)
    requires |a| < GIVE_UP && Short(lines)
    ensures Short([a] + lines)
  {
  }

  /** Reads under which a stream with a long line is not passed on as it is. */
  lemma {:induction false} LongLineDependsOnChunking(s: seq<byte>) returns (chunks: seq<seq<byte>>)
    requires Lacks(s, 0) && !Short(Closed(s, LF))
    ensures FeasibleRun([], chunks) && Concat(chunks) == s && Run([], chunks).lines != TrimAll(Closed(s, LF))
    decreases |s|
  {
    hide Step, Trim, Closed, FeasibleRun, Run;
    if Lacks(s, LF) { ClosedOfOne(s, LF); }
    var k := FirstSeparator(s, LF);
    var a, rest := s[..k], s[k + 1..];
    ClosedAtSeparator(a, LF, rest);
    var expected := [a] + Closed(rest, LF);
    assert expected[1..] == Closed(rest, LF);
    if |a| >= GIVE_UP {
      chunks := LongLineLost(a, rest);
    } else {
      if Short(Closed(rest, LF)) { ShortCons(a, Closed(rest, LF)); }
      var more := LongLineDependsOnChunking(rest);
      chunks := [a + [LF]] + more;
      Newline(a);
      RunStep([], a + [LF], more);
      FeasibleStep([], a + [LF], more);
      var lines := Run([], more).lines;
      assert ([Trim(a)] + lines)[1..] == lines;
      assert TrimAll(expected) == [Trim(a)] + TrimAll(Closed(rest, LF));
      assert ([Trim(a)] + TrimAll(Closed(rest, LF)))[1..] == TrimAll(Closed(rest, LF));
    }
  }

  /** The lines of a stream without zeros do not depend on how it is cut into reads if and only if every finished
      line has at most 999 bytes before its newline. */
  lemma LinesIndependentIff(s: seq<byte>)
    requires Lacks(s, 0)
    ensures (forall chunks ::
        FeasibleRun([], chunks) && Concat(chunks) == s ==> Run([], chunks).lines == TrimAll(Closed(s, LF)))
      <==> Short(Closed(s, LF))
  {
    hide Closed, Run, FeasibleRun, TrimAll, Short;
    if Short(Closed(s, LF)) {
      forall chunks | FeasibleRun([], chunks) && Concat(chunks) == s
        ensures Run([], chunks).lines == TrimAll(Closed(s, LF)) {
        LinesIndependentOfChunking(chunks);
      }
    } else {
      var chunks := LongLineDependsOnChunking(s);
    }
  }

  // ---------- Lines as a meter sends them ----------

  /** A line that ends in a newline (0A), with a carriage return (0D) before it or without. */
  datatype SentLine = SentLine(text: seq<byte>, crlf: bool) {
    /** It has no newline and no zero in it, fewer than 1000 bytes before its newline, and does not end in a carriage
        return of its own. */
    predicate Valid() {
      Lacks(text, 0x0A) && Lacks(text, 0x00) && |text| + (if crlf then 1 else 0) < 1000
      && (!crlf && text != [] ==> text[|text| - 1] != 0x0D)
    }

    function Body(): seq<byte> { if crlf then text + [0x0D] else text }
  }

  predicate AllValid(ls: seq<SentLine>) { forall k :: 0 <= k < |ls| ==> ls[k].Valid() }

  function Sent(ls: seq<SentLine>): seq<byte> { if ls == [] then [] else ls[0].Body() + [0x0A] + Sent(ls[1..]) }

  function BodiesOf(ls: seq<SentLine>): seq<seq<byte>> { if ls == [] then [] else [ls[0].Body()] + BodiesOf(ls[1..]) }

  function Texts(ls: seq<SentLine>): seq<seq<byte>> { if ls == [] then [] else [ls[0].text] + Texts(ls[1..]) }

  lemma BodyOfLine(l: SentLine)
    requires l.Valid()
    ensures Lacks(l.Body(), LF) && Lacks(l.Body(), 0) && |l.Body()| < 1000 && Trim(l.Body()) == l.text
  {
  }

  lemma {:induction false} SentIsClosed(ls: seq<SentLine>)
    requires AllValid(ls)
    ensures var s := Sent(ls);
      Lacks(s, 0) && Closed(s, LF) == BodiesOf(ls) && Short(BodiesOf(ls)) && Open(s, LF) == []
      && TrimAll(BodiesOf(ls)) == Texts(ls)
    decreases |ls|
  {
    hide Closed, Open, Trim, SentLine.Body, SentLine.Valid;
    if ls == [] {
      ClosedOfOne([], LF);
      OpenOfOne([]);
    } else {
      var l, rest := ls[0], Sent(ls[1..]);
      assert l.Valid();
      BodyOfLine(l);
      SentIsClosed(ls[1..]);
      ClosedAtSeparator(l.Body(), LF, rest);
      OpenAtSeparator(l.Body(), LF, rest);
      ShortCons(l.Body(), BodiesOf(ls[1..]));
      assert BodiesOf(ls)[1..] == BodiesOf(ls[1..]);
    }
  }

  /** Lines arrive as they were sent, without their line ends, however they are cut into reads, and nothing stays in the
      buffer. */
  lemma SentLinesArrive(ls: seq<SentLine>, chunks: seq<seq<byte>>)
    requires AllValid(ls) && FeasibleRun([], chunks) && Concat(chunks) == Sent(ls)
    ensures Run([], chunks) == Turn([], Texts(ls))
  {
    hide Closed, Open, Short, TrimAll, Run, FeasibleRun;
    SentIsClosed(ls);
    LinesIndependentOfChunking(chunks);
  }
}
