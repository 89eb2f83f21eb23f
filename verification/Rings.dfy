/** The overwriting rings of `main.c` (debug bytes and trace text) and their readout. */
module Rings {
  import opened Bytes

  const RING_SIZE := 4096
  const HEX_SIZE := RING_SIZE * 3 + 1
  const NUL := 0 as char

  /** The most recent bytes that a ring can hold: one slot always stays free. */
  function Keep(s: seq<byte>): seq<byte> {
    if |s| < RING_SIZE then s else s[|s| - (RING_SIZE - 1)..]
  }

  /** The positions from `tail` up to `head`, around the end of the buffer. */
  function Window<T>(buf: seq<T>, head: nat, tail: nat): seq<T>
    requires head < |buf| && tail < |buf|
  {
    if tail <= head then buf[tail..head] else buf[tail..] + buf[..head]
  }

  function Next(i: nat, n: nat): (j: nat)
    requires i < n
    ensures j < n
  {
    if i + 1 == n then 0 else i + 1
  }

  /** Writing at the head appends to the window and, when the head catches up with the tail, drops its first element. */
  lemma WindowPush<T>(buf: seq<T>, head: nat, tail: nat, b: T)
    requires head < |buf| && tail < |buf| && |buf| >= 2
    ensures var n, w := |buf|, Window(buf, head, tail) + [b];
      |w| <= n && Window(buf[head := b], Next(head, n), if Next(head, n) == tail then Next(tail, n) else tail)
        == if |w| < n then w else w[1..]
  {
    var n, new_ := |buf|, buf[head := b];
    assert new_[..head] == buf[..head];
    if tail <= head {
      assert new_[tail..head] == buf[tail..head];
      assert new_[tail..head + 1] == buf[tail..head] + [b];
      if head + 1 == n {
        if tail == 0 { assert new_[1..] == (buf[0..head] + [b])[1..]; }
      }
    } else {
      assert new_[..head + 1] == buf[..head] + [b];
      assert new_[tail..] == buf[tail..];
      assert buf[tail..] + buf[..head] + [b] == buf[tail..] + (buf[..head] + [b]);
      if head + 1 == tail {
        assert (buf[tail..] + new_[..head + 1])[1..] == buf[tail + 1..] + new_[..head + 1];
        if tail + 1 < n { assert new_[tail + 1..] == buf[tail + 1..]; }
      }
    }
  }

  lemma KeepPush(log: seq<byte>, b: byte)
    ensures var w := Keep(log) + [b]; Keep(log + [b]) == if |w| < RING_SIZE then w else w[1..]
  {
  }

  function HexDigit(d: nat): char
    requires d < 16
  {
    "0123456789ABCDEF"[d]
  }

  /** `%02X ` */
  function HexOctet(b: byte): (s: string)
    ensures |s| == 3
  {
    [HexDigit(Val(b) / 16), HexDigit(Val(b) % 16), ' ']
  }

  function Hex(s: seq<byte>): (h: string)
    ensures |h| == 3 * |s|
  {
    if s == [] then [] else Hex(s[..|s| - 1]) + HexOctet(s[|s| - 1])
  }

  lemma HexSnoc(s: seq<byte>, k: nat)
    requires k < |s|
    ensures Hex(s[..k + 1]) == Hex(s[..k]) + HexOctet(s[k])
  {
    assert s[..k + 1][..k] == s[..k];
  }

  /** The number a digit stands for. */
  function DigitValue(c: char): (d: int) {
    if '0' <= c <= '9' then (c - '0') as int else if 'A' <= c <= 'F' then (c - 'A') as int + 10 else -1
  }

  lemma DigitReadsBack(d: nat)
    requires d < 16
    ensures DigitValue(HexDigit(d)) == d
  {
    if d < 10 { assert HexDigit(d) == '0' + d as char; } else { assert HexDigit(d) == 'A' + (d - 10) as char; }
  }

  /** Every octet is shown by two digits, the upper one first, and a space. */
  lemma {:induction false} HexReadsBack(s: seq<byte>, k: nat)
    requires k < |s|
    ensures var h := Hex(s);
      16 * DigitValue(h[3 * k]) + DigitValue(h[3 * k + 1]) == Val(s[k]) && h[3 * k + 2] == ' '
    decreases |s|
  {
    hide Val, HexDigit, DigitValue;
    var init, last := s[..|s| - 1], s[|s| - 1];
    if k < |s| - 1 {
      HexReadsBack(init, k);
    } else {
      DigitReadsBack(Val(last) / 16);
      DigitReadsBack(Val(last) % 16);
    }
  }

  /** A ring keeps the last 4095 bytes. */
  lemma KeepsLast(s: seq<byte>)
    ensures |Keep(s)| == Min(|s|, 4095) && exists dropped :: s == dropped + Keep(s)
  {
    assert s == s[..|s| - |Keep(s)|] + Keep(s);
  }

  lemma WindowSize<T>(buf: seq<T>, head: nat, tail: nat)
    requires head < |buf| && tail < |buf|
    ensures |Window(buf, head, tail)| < |buf|
    ensures Window(buf, head, tail) == [] <==> head == tail
  {
  }

  lemma WindowPop<T>(buf: seq<T>, head: nat, tail: nat)
    requires head < |buf| && tail < |buf| && head != tail
    ensures Window(buf, head, tail) == [buf[tail]] + Window(buf, head, Next(tail, |buf|))
  {
    var next := Next(tail, |buf|);
    if tail > head {
      assert buf[tail..] == [buf[tail]] + buf[tail + 1..];
      if next == 0 { assert buf[0..head] == buf[..head]; }
    }
  }

  class Ring {
    const buf: array<byte>
    var head: nat
    var tail: nat
    /** Everything appended since the ring was last cleared. */
    ghost var log: seq<byte>

    constructor ()
      ensures Valid() && fresh(buf) && log == []
    {
      buf := new byte[RING_SIZE];
      head, tail, log := 0, 0, [];
    }

    ghost function Contents(): seq<byte>
      requires buf.Length == RING_SIZE && head < RING_SIZE && tail < RING_SIZE
      reads this, buf
    {
      Window(buf[..], head, tail)
    }

    /** The ring holds exactly the last min(total, 4095) bytes appended, in order. */
    ghost predicate Valid()
      reads this, buf
    {
      buf.Length == RING_SIZE && head < RING_SIZE && tail < RING_SIZE && Contents() == Keep(log)
    }

    /** One byte; the tail gives way when the head reaches it. */
    method Append(b: byte)
      requires Valid()
      modifies this, buf
      ensures Valid() && log == old(log) + [b]
    {
      hide Window, Keep;
      WindowPush(buf[..], head, tail, b);
      KeepPush(log, b);
      ghost var was := buf[..];
      buf[head] := b;
      assert buf[..] == was[head := b];
      head := (head + 1) % RING_SIZE;
      if head == tail {
        tail := (tail + 1) % RING_SIZE;
      }
      log := log + [b];
    }

    /** The loops of the receive tasks and, on the octets of a C string, `append_trace_str`. */
    method AppendAll(bytes: seq<byte>)
      requires Valid()
      modifies this, buf
      ensures Valid() && log == old(log) + bytes
    {
      hide Keep, Window;
      for i := 0 to |bytes|
        invariant Valid() && log == old(log) + bytes[..i]
      {
        Append(bytes[i]);
        assert bytes[..i + 1] == bytes[..i] + [bytes[i]];
      }
      assert bytes[..|bytes|] == bytes;
    }

    method Clear()
      requires buf.Length == RING_SIZE
      modifies this
      ensures Valid() && log == []
    {
      head, tail, log := 0, 0, [];
    }

    /** `snprintf` of one octet and a space, with its terminating zero. */
    static method WriteFour(out: array<char>, n: nat, h: string)
      requires n + 3 < out.Length && |h| == 3
      modifies out
      ensures out[..n + 3] == old(out[..n]) + h && out[n + 3] == NUL
    {
      out[n], out[n + 1], out[n + 2], out[n + 3] := h[0], h[1], h[2], NUL;
      assert out[..n] == old(out[..n]);
    }

    /** The hex readout of `get_debug_json`, terminating zero included. Its guard `pos < 4096 * 3 - 4` never
        cuts the text short, and no write passes the end of its buffer. */
    method ReadHex() returns (out: array<char>, n: nat)
      requires Valid()
      ensures fresh(out) && out.Length == HEX_SIZE
      ensures n == 3 * |Contents()| && n < out.Length && out[..n] == Hex(Keep(log)) && out[n] == NUL
    {
      hide Keep, HexOctet, Window;
      out := new char[HEX_SIZE](_ => NUL);
      n := 0;
      var curr: nat := tail;
      ghost var k := 0;
      ghost var c := Contents();
      WindowSize(buf[..], head, tail);
      while curr != head && n < RING_SIZE * 3 - 4
        invariant curr < RING_SIZE && k <= |c| && n == 3 * k && n < out.Length
        invariant |Window(buf[..], head, curr)| == |c| - k && Window(buf[..], head, curr) == c[k..]
        invariant out[..n] == Hex(c[..k]) && out[n] == NUL
        decreases |c| - k
      {
        WindowPop(buf[..], head, curr);
        var h := HexOctet(buf[curr]);
        assert buf[curr] == c[k];
        WriteFour(out, n, h);
        HexSnoc(c, k);
        n := n + 3;
        curr := (curr + 1) % RING_SIZE;
        assert c[k..][1..] == c[k + 1..];
        k := k + 1;
      }
      WindowSize(buf[..], head, curr);
      assert c[..k] == c;
    }

    /** The copy of the trace text before its colour codes are removed. */
    method ReadText() returns (out: array<byte>, n: nat)
      requires Valid()
      ensures fresh(out) && out.Length == RING_SIZE + 1
      ensures n < out.Length && out[..n] == Keep(log) && out[n] == 0
    {
      hide Keep, Window;
      out := new byte[RING_SIZE + 1];
      n := 0;
      var curr: nat := tail;
      ghost var c := Contents();
      WindowSize(buf[..], head, tail);
      while curr != head && n < RING_SIZE
        invariant curr < RING_SIZE && n <= |c| && n < out.Length
        invariant |Window(buf[..], head, curr)| == |c| - n && Window(buf[..], head, curr) == c[n..]
        invariant out[..n] == c[..n]
        decreases |c| - n
      {
        WindowPop(buf[..], head, curr);
        out[n] := buf[curr];
        assert buf[curr] == c[n];
        assert out[..n + 1] == out[..n] + [c[n]] == c[..n + 1];
        n := n + 1;
        curr := (curr + 1) % RING_SIZE;
        assert c[n - 1..][1..] == c[n..];
      }
      WindowSize(buf[..], head, curr);
      assert c[..n] == c;
      out[n] := 0;
    }
  }
}
