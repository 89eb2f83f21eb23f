/** Finding flag-delimited frames (`dlms_hdlc_find_frame`), and its relation to splitting a stream at the flags. */
module FrameFinder {
  import opened Bytes
  import opened Hdlc
  import opened Splitting

  datatype Span = Span(start: nat, end: nat)

  predicate NoFlag(s: seq<byte>) { Lacks(s, FLAG) }

  /** Neighbouring flags more than one apart, the second one included. */
  predicate IsFrame(buf: seq<byte>, s: nat, e: nat) {
    s + 3 <= e <= |buf| && buf[s] == FLAG && buf[e - 1] == FLAG && NoFlag(buf[s + 1..e - 1])
  }

  function NextFlag(buf: seq<byte>, i: nat): (j: nat)
    requires i <= |buf|
    ensures i <= j <= |buf| && NoFlag(buf[i..j])
    ensures j < |buf| ==> buf[j] == FLAG
    decreases |buf| - i
  {
    if i == |buf| || buf[i] == FLAG then i
    else
      var j := NextFlag(buf, i + 1);
      assert buf[i..j] == [buf[i]] + buf[i + 1..j];
      j
  }

  function PairFrom(buf: seq<byte>, s: nat): Option<Span>
    requires s < |buf|
    decreases |buf| - s
  {
    var e := NextFlag(buf, s + 1);
    if e == |buf| then None else if e == s + 1 then PairFrom(buf, e) else Some(Span(s, e + 1))
  }

  function Find(buf: seq<byte>): Option<Span> {
    var s := NextFlag(buf, 0);
    if s == |buf| then None else PairFrom(buf, s)
  }

  lemma NextFlagStep(buf: seq<byte>, i: nat, k: nat)
    requires i <= k <= |buf| && NoFlag(buf[i..k])
    ensures NextFlag(buf, i) == NextFlag(buf, k)
    decreases k - i
  {
    if i < k {
      assert buf[i] in buf[i..k];
      assert buf[i + 1..k] == buf[i..k][1..];
      NextFlagStep(buf, i + 1, k);
    }
  }

  lemma FirstFlag(buf: seq<byte>, i: nat)
    requires i <= |buf| && NoFlag(buf[0..i])
    ensures i < |buf| && buf[i] == FLAG ==> Find(buf) == PairFrom(buf, i)
    ensures i == |buf| ==> Find(buf).None?
  {
    NextFlagStep(buf, 0, i);
  }

  lemma SecondFlag(buf: seq<byte>, s: nat, i: nat)
    requires s < i <= |buf| && NoFlag(buf[s + 1..i])
    ensures i < |buf| && buf[i] == FLAG ==>
      PairFrom(buf, s) == if i == s + 1 then PairFrom(buf, i) else Some(Span(s, i + 1))
    ensures i == |buf| ==> PairFrom(buf, s).None?
  {
    NextFlagStep(buf, s + 1, i);
  }

  lemma NoFlagExtend(buf: seq<byte>, lo: nat, i: nat)
    requires lo <= i < |buf| && NoFlag(buf[lo..i]) && buf[i] != FLAG
    ensures NoFlag(buf[lo..i + 1])
  {
    assert buf[lo..i + 1] == buf[lo..i] + [buf[i]];
  }

  lemma NothingLacks(buf: seq<byte>, i: nat)
    requires i <= |buf|
    ensures NoFlag(buf[i..i])
  {
  }

  /** `dlms_hdlc_find_frame` */
  method FindFrame(buf: seq<byte>) returns (rc: int, frameStart: nat, frameEnd: nat)
    ensures rc == 0 || rc == -1
    ensures rc == 0 <==> Find(buf).Some?
    ensures rc == 0 ==> Find(buf) == Some(Span(frameStart, frameEnd))
  {
    hide Find, PairFrom, NoFlag;
    frameStart, frameEnd := 0, 0;
    var foundStart := false;
    var i := 0;
    assert NoFlag(buf[0..0]) by { NothingLacks(buf, 0); }
    while i < |buf|
      invariant i <= |buf|
      invariant !foundStart ==> NoFlag(buf[0..i])
      invariant foundStart ==>
        && frameStart < i && NoFlag(buf[frameStart + 1..i])
        && Find(buf) == PairFrom(buf, frameStart)
    {
      if buf[i] == FLAG {
        if !foundStart {
          FirstFlag(buf, i);
          frameStart := i;
          foundStart := true;
        } else {
          SecondFlag(buf, frameStart, i);
          if i - frameStart > 1 {
            frameEnd := i + 1;
            return 0, frameStart, frameEnd;
          } else {
            frameStart := i;
          }
        }
        NothingLacks(buf, i + 1);
      } else {
        NoFlagExtend(buf, if foundStart then frameStart + 1 else 0, i);
      }
      i := i + 1;
    }
    if foundStart { SecondFlag(buf, frameStart, i); } else { FirstFlag(buf, i); }
    rc := -1;
  }

  // ---------- What is found ----------

  lemma InsideNoFlag(buf: seq<byte>, s: nat, e: nat, k: nat)
    requires IsFrame(buf, s, e) && s < k < e - 1
    ensures buf[k] != FLAG
  {
    assert buf[k] == buf[s + 1..e - 1][k - s - 1];
  }

  lemma {:induction false} PairIsLeftmost(buf: seq<byte>, s: nat)
    requires s < |buf| && buf[s] == FLAG
    ensures PairFrom(buf, s).Some? ==>
      var p := PairFrom(buf, s).value; s <= p.start && IsFrame(buf, p.start, p.end)
    ensures forall s': nat, e': nat | s <= s' && IsFrame(buf, s', e') ::
      PairFrom(buf, s).Some? && PairFrom(buf, s).value.start <= s'
    decreases |buf| - s
  {
    var e := NextFlag(buf, s + 1);
    if e == s + 1 && e < |buf| { PairIsLeftmost(buf, e); }
    forall s': nat, e': nat | s <= s' && IsFrame(buf, s', e')
      ensures PairFrom(buf, s).Some? && PairFrom(buf, s).value.start <= s'
    {
      assert e <= e' - 1 by {
        if e' - 1 < e { SeparatorInside(buf, FLAG, s + 1, e, e' - 1); }
      }
      if e == s + 1 && s' == s { InsideNoFlag(buf, s', e', e); }
    }
  }

  /** The span found is the leftmost pair of neighbouring flags more than one apart, and there is none
      exactly when nothing is found. */
  lemma FindIsLeftmost(buf: seq<byte>)
    ensures Find(buf).Some? <==> exists s: nat, e: nat :: IsFrame(buf, s, e)
    ensures Find(buf).Some? ==> var p := Find(buf).value; IsFrame(buf, p.start, p.end)
    ensures forall s: nat, e: nat | IsFrame(buf, s, e) :: Find(buf).value.start <= s
  {
    var f := NextFlag(buf, 0);
    if f < |buf| { PairIsLeftmost(buf, f); }
    forall s: nat, e: nat | IsFrame(buf, s, e) ensures f <= s {
      if s < f { SeparatorInside(buf, FLAG, 0, f, s); }
    }
  }

  lemma SameStartSameEnd(buf: seq<byte>, s: nat, e: nat, e': nat)
    requires IsFrame(buf, s, e) && IsFrame(buf, s, e')
    ensures e == e'
  {
    if e < e' { SeparatorInside(buf, FLAG, s + 1, e' - 1, e - 1); }
    if e' < e { SeparatorInside(buf, FLAG, s + 1, e - 1, e' - 1); }
  }

  /** A frame with no other frame starting before it is the one found. */
  lemma FindUnique(buf: seq<byte>, s: nat, e: nat)
    requires IsFrame(buf, s, e)
    requires forall s': nat, e': nat | IsFrame(buf, s', e') :: s <= s'
    ensures Find(buf) == Some(Span(s, e))
  {
    FindIsLeftmost(buf);
    var p := Find(buf).value;
    SameStartSameEnd(buf, s, e, p.end);
  }

  /** Bytes that arrive later do not change what has been found. */
  lemma FindStable(buf: seq<byte>, more: seq<byte>)
    requires Find(buf).Some?
    ensures Find(buf + more) == Find(buf)
  {
    FindIsLeftmost(buf);
    var p := Find(buf).value;
    var x := buf + more;
    assert x[p.start + 1..p.end - 1] == buf[p.start + 1..p.end - 1];
    forall s: nat, e: nat | IsFrame(x, s, e) ensures p.start <= s {
      if s < p.start {
        if e <= |buf| {
          assert x[s + 1..e - 1] == buf[s + 1..e - 1];
          assert IsFrame(buf, s, e);
        } else {
          InsideNoFlag(x, s, e, p.start);
        }
      }
    }
    FindUnique(x, p.start, p.end);
  }

  /** After flag-free noise, the first frame is found whole, whatever follows it. */
  lemma FindAfterNoise(noise: seq<byte>, body: seq<byte>, rest: seq<byte>)
    requires NoFlag(noise) && NoFlag(body) && |body| >= 1
    ensures Find(noise + ([FLAG] + body + [FLAG]) + rest) == Some(Span(|noise|, |noise| + |body| + 2))
  {
    var x := noise + ([FLAG] + body + [FLAG]) + rest;
    var s, e := |noise|, |noise| + |body| + 2;
    assert x[s + 1..e - 1] == body;
    assert forall k :: 0 <= k < |noise| ==> x[k] == noise[k];
    forall s': nat, e': nat | IsFrame(x, s', e') ensures s <= s' {
    }
    FindUnique(x, s, e);
  }

  /** Without a whole frame in it, flag-free noise and a proper prefix of a frame contain none. */
  lemma FindNoneBefore(noise: seq<byte>, body: seq<byte>, n: nat)
    requires NoFlag(noise) && NoFlag(body)
    requires n < |noise| + |body| + 2
    ensures Find((noise + ([FLAG] + body + [FLAG]))[..n]).None?
  {
    var x := noise + ([FLAG] + body + [FLAG]);
    FindIsLeftmost(x[..n]);
    assert forall k :: 0 <= k < |noise| ==> x[k] == noise[k];
    assert forall k :: |noise| < k < |noise| + |body| + 1 ==> x[k] == body[k - |noise| - 1];
    forall s: nat, e: nat ensures !IsFrame(x[..n], s, e) {
    }
  }

  // ---------- Splitting at the flags ----------

  lemma CutAt(x: seq<byte>, lo: nat, k: nat)
    requires lo <= k < |x| && x[k] == FLAG
    ensures x[lo..] == x[lo..k] + [FLAG] + x[k + 1..]
  {
  }

  lemma {:induction false} PairBodies(x: seq<byte>, s: nat)
    requires s < |x| && x[s] == FLAG
    ensures PairFrom(x, s).None? ==> BodiesAfter(x[s + 1..], FLAG) == []
    ensures PairFrom(x, s).Some? ==> var p := PairFrom(x, s).value;
      s <= p.start && p.start + 3 <= p.end <= |x| && x[p.end - 1] == FLAG
      && BodiesAfter(x[s + 1..], FLAG) == [x[p.start + 1..p.end - 1]] + BodiesAfter(x[p.end..], FLAG)
    decreases |x| - s
  {
    hide BodiesAfter;
    var e := NextFlag(x, s + 1);
    if e == |x| {
      BodiesOfOne(x[s + 1..], FLAG);
    } else {
      CutAt(x, s + 1, e);
      BodiesAfterSeparator(x[s + 1..e], FLAG, x[e + 1..]);
      if e == s + 1 { PairBodies(x, e); }
    }
  }

  lemma BodiesFromFlag(x: seq<byte>, f: nat)
    requires f < |x| && x[f] == FLAG && NoFlag(x[0..f])
    ensures Bodies(x, FLAG) == BodiesAfter(x[f + 1..], FLAG)
  {
    hide Bodies, BodiesAfter;
    CutAt(x, 0, f);
    BodiesFromSeparator(x[0..f], FLAG, x[f + 1..]);
  }

  lemma NoFlagNoBodies(x: seq<byte>)
    requires NoFlag(x)
    ensures Bodies(x, FLAG) == []
  {
    BodiesOfOne(x, FLAG);
  }

  /** Taking the found frame out of a stream, but for its closing flag, takes out its first body. */
  lemma FindTakesFirstBody(x: seq<byte>)
    ensures Find(x).None? ==> Bodies(x, FLAG) == []
    ensures Find(x).Some? ==> var p := Find(x).value;
      p.start + 3 <= p.end <= |x| && Bodies(x, FLAG) == [x[p.start + 1..p.end - 1]] + Bodies(x[p.end - 1..], FLAG)
  {
    hide Bodies, BodiesAfter, NoFlag, PairFrom;
    var f := NextFlag(x, 0);
    if f == |x| {
      assert x[0..f] == x;
      NoFlagNoBodies(x);
    } else {
      BodiesFromFlag(x, f);
      PairBodies(x, f);
      if Find(x).Some? {
        var p := Find(x).value;
        var y := x[p.end - 1..];
        NothingLacks(y, 0);
        BodiesFromFlag(y, 0);
        assert y[1..] == x[p.end..];
      }
    }
  }
}
