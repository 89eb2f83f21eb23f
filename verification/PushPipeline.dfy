/** From the meter's octets to the dashboard: the push buffer, the frame parser, the definition/value machine and
    the cache, one after the other. */
module PushPipeline {
  import opened Bytes
  import opened Hdlc
  import opened HdlcParser
  import HdlcRoundTrip
  import opened Splitting
  import opened FrameFinder
  import opened Receiver
  import opened PushBuffer
  import opened PushLine
  import opened PushSession
  import opened Readings
  import ReadingCache
  import Obis

  /** The information fields of the frames that parse; the others are dropped. */
  function Infos(frames: seq<seq<byte>>): seq<seq<byte>> {
    if frames == [] then []
    else
      var f := Parse(frames[0]);
      (if f.Some? then [f.value.info] else []) + Infos(frames[1..])
  }

  /** What is published and cached for these frames. */
  function Published(frames: seq<seq<byte>>): seq<Reading> { HandleAll(INITIAL, Infos(frames)).published }

  function FramedAll(bodies: seq<seq<byte>>): (fs: seq<seq<byte>>)
    ensures |fs| == |bodies|
  {
    if bodies == [] then [] else [Framed(bodies[0])] + FramedAll(bodies[1..])
  }

  // ---------- Nothing is published out of turn ----------

  lemma {:induction false} InfosConcat(a: seq<seq<byte>>, b: seq<seq<byte>>)
    ensures Infos(a + b) == Infos(a) + Infos(b)
    decreases |a|
  {
    hide Parse;
    if a == [] {
      assert a + b == b;
    } else {
      assert (a + b)[0] == a[0] && (a + b)[1..] == a[1..] + b;
      InfosConcat(a[1..], b);
    }
  }

  lemma {:induction false} HandleAllConcat(s: Session, a: seq<seq<byte>>, b: seq<seq<byte>>)
    ensures var h := HandleAll(s, a); HandleAll(s, a + b) == Then(h.published, HandleAll(h.session, b))
    decreases |a|
  {
    hide Handle;
    if a == [] {
      assert a + b == b;
      assert [] + HandleAll(s, b).published == HandleAll(s, b).published;
    } else {
      assert (a + b)[0] == a[0] && (a + b)[1..] == a[1..] + b;
      var h := Handle(s, a[0]);
      HandleAllConcat(h.session, a[1..], b);
      var g := HandleAll(h.session, a[1..]);
      ThenThen(h.published, g.published, HandleAll(g.session, b));
    }
  }

  lemma PublishedPrefix(a: seq<seq<byte>>, b: seq<seq<byte>>)
    ensures Published(a) <= Published(a + b)
  {
    InfosConcat(a, b);
    HandleAllConcat(INITIAL, Infos(a), Infos(b));
  }

  lemma {:induction false} FramedAllConcat(a: seq<seq<byte>>, b: seq<seq<byte>>)
    ensures FramedAll(a + b) == FramedAll(a) + FramedAll(b)
    decreases |a|
  {
    if a == [] {
      assert a + b == b;
    } else {
      assert (a + b)[0] == a[0] && (a + b)[1..] == a[1..] + b;
      FramedAllConcat(a[1..], b);
    }
  }

  lemma {:induction false} FramesFromBodies(frames: seq<seq<byte>>)
    requires forall k: nat :: k < |frames| ==> |frames[k]| >= 3 && IsFrame(frames[k], 0, |frames[k]|)
    ensures FramedAll(InnerAll(frames)) == frames && |InnerAll(frames)| == |frames|
    decreases |frames|
  {
    hide NoFlag;
    if frames != [] {
      var f := frames[0];
      assert IsFrame(f, 0, |f|);
      assert f == Framed(Inner(f));
      FramesFromBodies(frames[1..]);
    }
  }

  /** As long as no flag is thrown away, what has been published at any moment is a prefix of what the frames of
      the whole stream publish, whatever is still to come, and all of it once all of them have been taken out. */
  lemma PublishedSoFar(events: seq<Event>, t: seq<byte>)
    requires KeepsFlags([], events)
    ensures var taken, all := Run([], events).frames, FramedAll(Bodies(Stream(events) + t, FLAG));
      |taken| <= |all| && Published(taken) <= Published(all)
        && (|taken| == |all| ==> Published(taken) == Published(all))
  {
    hide Run, Bodies, KeepsFlags, Published, IsFrame, InnerAll;
    var o, bodies := Run([], events), Bodies(Stream(events) + t, FLAG);
    var taken := o.frames;
    forall k: nat | k < |taken|
      ensures |taken[k]| >= 3 && IsFrame(taken[k], 0, |taken[k]|) { FramesAreFramed([], events, k); }
    FramesFromBodies(taken);
    RunRefinesSplitting([], events, t);
    assert [] + Stream(events) + t == Stream(events) + t;
    var rest := Bodies(o.rx + t, FLAG);
    FramedAllConcat(InnerAll(taken), rest);
    PublishedPrefix(taken, FramedAll(rest));
    if |taken| == |bodies| { assert taken + FramedAll(rest) == taken; }
  }

  // ---------- Frames as the meter sends them ----------

  /** The information the parser hands on. */
  function Payloads(ps: seq<Push>): seq<seq<byte>> {
    if ps == [] then [] else [StripLlc(ps[0].info)] + Payloads(ps[1..])
  }

  lemma Opened(b: seq<byte>, rest: seq<byte>)
    ensures Framed(b) + rest == [] + [FLAG] + (b + [FLAG] + rest)
  {
  }

  lemma SentParses(p: Push)
    requires p.Sendable()
    ensures Parse(p.Sent()).Some? && Parse(p.Sent()).value.info == StripLlc(p.info)
  {
    hide Parse, Wire, StripLlc;
    HdlcRoundTrip.ParseWire(p.addresses, p.control, p.info);
  }

  /** Frames sent one after the other are cut apart again. */
  lemma {:induction false} LineBodies(ps: seq<Push>)
    requires AllSendable(ps)
    ensures BodiesAfter(Line(ps), FLAG) == Bodies(Line(ps), FLAG)
    ensures Infos(FramedAll(Bodies(Line(ps), FLAG))) == Payloads(ps) && |Bodies(Line(ps), FLAG)| == |ps|
    decreases |ps|
  {
    hide Bodies, BodiesAfter, Parse, Wire, StripLlc, Push.Sendable, Push.Sent, Inner;
    if ps == [] {
      BodiesOfOne([], FLAG);
    } else {
      var p := ps[0];
      assert p.Sendable();
      var b, rest := Inner(p.Sent()), Line(ps[1..]);
      SentIsFramed(p);
      SentParses(p);
      LineBodies(ps[1..]);
      Opened(b, rest);
      BodiesFromSeparator([], FLAG, b + [FLAG] + rest);
      BodiesAfterSeparator([], FLAG, b + [FLAG] + rest);
      BodiesAfterSeparator(b, FLAG, rest);
      var more := BodiesAfter(rest, FLAG);
      assert ([b] + more)[1..] == more;
      assert [] + ([b] + more) == [b] + more;
    }
  }

  // ---------- End to end ----------

  /** A meter sends these cycles: the frames carry their records, wherever the records are cut into frames. */
  ghost predicate Pushes(ps: seq<Push>, batches: seq<seq<Record>>, cs: seq<PushSession.Cycle>) {
    AllSendable(ps) && AllCarry(Payloads(ps), batches) && Concat(batches) == CycleRecords(cs)
    && forall k :: 0 <= k < |cs| ==> cs[k].Proper()
  }

  /** So far `events`, and `t` is still to come; no flag is thrown away, because the frames do not let it happen or
      because the reads happen not to. */
  predicate Arrives(events: seq<Event>, t: seq<byte>, ps: seq<Push>) {
    Stream(events) + t == Line(ps) && (NeverBroken(ps) || KeepsFlags([], events))
  }

  /** Every value is published with its own code, in order, and nothing else is; when the last frame has been
      taken out all of them are. */
  lemma PushedPairsArePublished(events: seq<Event>, t: seq<byte>, ps: seq<Push>, batches: seq<seq<Record>>,
                                cs: seq<PushSession.Cycle>)
    requires Pushes(ps, batches, cs) && Arrives(events, t, ps)
    ensures var taken := Run([], events).frames;
      Published(taken) <= AllPairs(cs) && (|taken| == |ps| ==> Published(taken) == AllPairs(cs))
  {
    hide Run, Bodies, BodiesAfter, KeepsFlags, NeverBroken, HandleAll, CyclePairs, Line, AllSendable;
    if NeverBroken(ps) { KeptAlways(events, t, ps); }
    PublishedSoFar(events, t);
    LineBodies(ps);
    FramedCyclesPairCorrectly(Payloads(ps), batches, cs);
  }

  /** When every read brings one frame, every frame is taken out as it comes, on any stream. */
  lemma {:induction false} EachReadAFrame(rx: seq<byte>, ps: seq<Push>)
    requires rx == [] || rx == [FLAG]
    requires AllSendable(ps) && forall k :: 0 <= k < |ps| ==> |ps[k].Sent()| < PushBuffer.BUFFER_SIZE
    ensures var events := FrameByFrame(ps); var taken := Run(rx, events).frames;
      FeasibleRun(rx, events) && KeepsFlags(rx, events) && Stream(events) == Line(ps)
      && |taken| == |ps| && Infos(taken) == Payloads(ps)
    decreases |ps|
  {
    hide Parse, Wire, StripLlc, Push.Sendable, Push.Sent, Inner, Step, Feasible, Dropped;
    if ps != [] {
      var p := ps[0];
      assert p.Sendable();
      SentIsFramed(p);
      SentParses(p);
      TakesOne(rx, Inner(p.Sent()));
      EachReadAFrame([FLAG], ps[1..]);
      var events := FrameByFrame(ps);
      assert events[0] == Data(p.Sent()) && events[1..] == FrameByFrame(ps[1..]);
      var more := Run([FLAG], events[1..]).frames;
      assert Run(rx, events).frames == [p.Sent()] + more;
      assert ([p.Sent()] + more)[1..] == more;
    }
  }

  /** Then all pairs are published, whatever octets the frames contain: a frame that is there is always
      preferred to what looks like an M-Bus window. */
  lemma FrameByFramePublishesAll(ps: seq<Push>, batches: seq<seq<Record>>, cs: seq<PushSession.Cycle>)
    requires AllSendable(ps) && forall k :: 0 <= k < |ps| ==> |ps[k].Sent()| < PushBuffer.BUFFER_SIZE
    requires AllCarry(Payloads(ps), batches) && Concat(batches) == CycleRecords(cs)
    requires forall k :: 0 <= k < |cs| ==> cs[k].Proper()
    ensures Published(Run([], FrameByFrame(ps)).frames) == AllPairs(cs)
  {
    hide Run, HandleAll, CyclePairs, Push.Sendable, Push.Sent;
    EachReadAFrame([], ps);
    FramedCyclesPairCorrectly(Payloads(ps), batches, cs);
  }

  /** The last reading with this code. */
  function LastOf(rs: seq<Reading>, code: seq<byte>): Option<Reading> {
    if rs == [] then None
    else if rs[|rs| - 1].obis == code then Some(rs[|rs| - 1])
    else LastOf(rs[..|rs| - 1], code)
  }

  predicate Labelled(r: Reading) { |r.obis| == Obis.CODE_LEN && r.obisStr == Obis.Text(r.obis) }

  lemma {:induction false} LastByCode(rs: seq<Reading>, code: seq<byte>)
    requires |code| == Obis.CODE_LEN && forall k :: 0 <= k < |rs| ==> Labelled(rs[k])
    ensures ReadingCache.Last(rs, Obis.Text(code)) == LastOf(rs, code)
    decreases |rs|
  {
    hide Obis.Text;
    if rs != [] {
      var last := rs[|rs| - 1];
      assert Labelled(last);
      LastByCode(rs[..|rs| - 1], code);
      if last.obisStr == Obis.Text(code) { Obis.TextInjective(last.obis, code); }
    }
  }

  predicate AllCodes(codes: seq<seq<byte>>) { forall k :: 0 <= k < |codes| ==> |codes[k]| == Obis.CODE_LEN }

  lemma {:induction false} CodesAreCodes(ds: seq<Record>)
    requires forall k :: 0 <= k < |ds| ==> ds[k].Definition?
    ensures AllCodes(Codes(ds))
    decreases |ds|
  {
    if ds != [] { CodesAreCodes(ds[1..]); }
  }

  lemma {:induction false} PairedLabelled(codes: seq<seq<byte>>, i: nat, values: seq<Record>)
    requires AllCodes(codes) && forall k :: 0 <= k < |values| ==> values[k].Measured?
    ensures forall k :: 0 <= k < |Paired(codes, i, values)| ==> Labelled(Paired(codes, i, values)[k])
    decreases |values|
  {
    hide Obis.Text;
    if values != [] && i < |codes| { PairedLabelled(codes, i + 1, values[1..]); }
  }

  lemma {:induction false} AllPairsLabelled(cs: seq<PushSession.Cycle>)
    requires forall k :: 0 <= k < |cs| ==> cs[k].Proper()
    ensures forall k :: 0 <= k < |AllPairs(cs)| ==> Labelled(AllPairs(cs)[k])
    decreases |cs|
  {
    hide Labelled, Paired, Codes;
    if cs != [] {
      CodesAreCodes(cs[0].definitions);
      PairedLabelled(Stored(Codes(cs[0].definitions)), 1, cs[0].values);
      AllPairsLabelled(cs[1..]);
    }
  }

  /** What the dashboard shows when this is the last reading of a code; a null value, which the cache takes for an
      empty slot, shows as none. */
  function Shown(last: Option<Reading>): Reading {
    match last
    case None => CLEARED
    case Some(r) => if !r.valid && r.dataType == 0x00 then CLEARED else r
  }

  lemma KeysOfPrefix(rs: seq<Reading>, n: nat)
    requires n <= |rs|
    ensures |ReadingCache.Keys(rs[..n])| <= |ReadingCache.Keys(rs)|
  {
    assert ReadingCache.Keys(rs[..n]) <= ReadingCache.Keys(rs);
    ReadingCache.Subset(ReadingCache.Keys(rs[..n]), ReadingCache.Keys(rs));
  }

  lemma ShownIsLast(pairs: seq<Reading>, n: nat, code: seq<byte>)
    requires n <= |pairs| && forall k :: 0 <= k < |pairs| ==> Labelled(pairs[k])
    requires |code| == Obis.CODE_LEN && |ReadingCache.Keys(pairs)| <= 32
    ensures ReadingCache.Get(ReadingCache.CachedAll(map[], pairs[..n]), Obis.Text(code))
      == Shown(LastOf(pairs[..n], code))
  {
    hide ReadingCache.CachedAll, ReadingCache.Get, ReadingCache.Keys, Labelled, Obis.Text;
    KeysOfPrefix(pairs, n);
    LastByCode(pairs[..n], code);
    ReadingCache.LookupIsLast(pairs[..n], Obis.Text(code));
  }

  /** At every moment the dashboard shows for each code the last value published for it, and what has been
      published are the first of the pairs; all of them once the frames have been taken out. This is as long as no
      more codes are in use than the cache has slots. */
  lemma DashboardShowsLastPushed(events: seq<Event>, t: seq<byte>, ps: seq<Push>, batches: seq<seq<Record>>,
                                 cs: seq<PushSession.Cycle>, code: seq<byte>)
    requires Pushes(ps, batches, cs) && Arrives(events, t, ps)
    requires |code| == Obis.CODE_LEN && |ReadingCache.Keys(AllPairs(cs))| <= 32
    ensures var taken := Run([], events).frames; var n := |Published(taken)|;
      n <= |AllPairs(cs)| && (|taken| == |ps| ==> n == |AllPairs(cs)|)
      && ReadingCache.Get(ReadingCache.CachedAll(map[], Published(taken)), Obis.Text(code))
        == Shown(LastOf(AllPairs(cs)[..n], code))
  {
    hide Run, Published, AllPairs, ReadingCache.CachedAll, ReadingCache.Get, ReadingCache.Keys, Labelled, Obis.Text;
    hide Arrives, LastOf, Shown;
    PushedPairsArePublished(events, t, ps, batches, cs);
    AllPairsLabelled(cs);
    var published, pairs := Published(Run([], events).frames), AllPairs(cs);
    ShownIsLast(pairs, |published|, code);
    assert published == pairs[..|published|];
  }
}
