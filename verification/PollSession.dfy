/** One poll cycle of `do_poll_cycle` as a function of what the meter sends: link, association, reads, disconnect.
    The meter is arbitrary: any bytes, cut into any reads, may arrive while the client waits. */
module PollSession {
  import opened Bytes
  import opened HdlcParser
  import Receiver
  import opened Association
  import opened Axdr
  import AxdrDecoder
  import opened Readings

  const MAX_RETRIES := 3
  const CTRL_DM: byte := 0x1F
  const COUNTER_MODULUS := 0x1_0000_0000

  datatype State = Idle | ConnectingHdlc | ConnectingDlms | Connected | RequestSent | Disconnecting | Error

  datatype Command = Snrm | Iframe(sendSeq: byte, recvSeq: byte, apdu: seq<byte>) | Disc

  /** Something sent, in which state, and what waiting for an answer gave. */
  datatype Exchange = Exchange(during: State, sent: Command, reply: Option<Frame>)

  /** The reads that happen during the k-th wait of a cycle, and whether the lock of the i-th reading is obtained. */
  datatype Line = Line(arrivals: nat -> seq<seq<byte>>, locks: nat -> bool)

  /** A registered register; scaler, name, unit and device class are not part of this model. */
  datatype Entry = Entry(obis: seq<byte>, obisStr: string, shortName: bv16)

  datatype Progress = Progress(trace: seq<Exchange>, sendSeq: byte, recvSeq: byte)

  datatype Poller = Poller(entries: seq<Entry>, slots: seq<Reading>, polls: nat, errors: nat) {
    predicate Valid() { |slots| == |entries| && polls < COUNTER_MODULUS && errors < COUNTER_MODULUS }
  }

  datatype Outcome = Outcome(after: Poller, progress: Progress, linked: bool)

  // ---------- The cycle ----------

  function Heard(line: Line, k: nat): Option<Frame> { Receiver.Wait([], line.arrivals(k)) }

  function NextSeq(n: byte): byte { (n + 1) & 7 }

  predicate IsUa(control: byte) { control == 0x73 || control & 0xEF == 0x63 }

  predicate Confirms(reply: Option<Frame>) { reply.Some? && IsUa(reply.value.control) }

  predicate Refuses(reply: Option<Frame>) { reply.Some? && !IsUa(reply.value.control)
      && reply.value.control == CTRL_DM }

  /** A frame with this control octet is heard. */
  predicate Says(reply: Option<Frame>, control: byte) { reply.Some? && reply.value.control == control }

  lemma UaOctets(control: byte)
    ensures IsUa(control) <==> control == 0x73 || control == 0x63
  {
  }

  /** A UA confirms, with its final bit or without; a DM, 1F, refuses. */
  lemma DecidedBy(reply: Option<Frame>)
    ensures Confirms(reply) <==> Says(reply, 0x73) || Says(reply, 0x63)
    ensures Refuses(reply) <==> Says(reply, 0x1F)
  {
    hide IsUa;
    if reply.Some? { UaOctets(reply.value.control); }
  }

  predicate Numbered(reply: Option<Frame>) { reply.Some? && IsI(reply.value.control) }

  predicate Accepted(reply: Option<Frame>) { reply.Some? && AareAccepted(reply.value.info) }

  /** The association is accepted by what any frame carries; only a frame with an even control octet is numbered. */
  lemma AcceptedBy(reply: Option<Frame>)
    ensures Accepted(reply) <==> reply.Some? && AareAccepted(reply.value.info)
    ensures Numbered(reply) <==> reply.Some? && Val(reply.value.control) % 2 == 0
  {
    hide AareAccepted, Val;
    if reply.Some? {
      Parity(reply.value.control);
      ZeroOrOne(reply.value.control & 1);
    }
  }

  /** Sending a frame without sequence numbers and waiting. */
  function Say(p: Progress, line: Line, during: State, sent: Command): Progress {
    p.(trace := p.trace + [Exchange(during, sent, Heard(line, |p.trace|))])
  }

  /** Sending an I-frame and waiting. */
  function Ask(p: Progress, line: Line, during: State, apdu: seq<byte>): Progress {
    var reply := Heard(line, |p.trace|);
    Progress(p.trace + [Exchange(during, Iframe(p.sendSeq, p.recvSeq, apdu), reply)], NextSeq(p.sendSeq),
             if Numbered(reply) then NextSeq(SendSeq(reply.value.control)) else p.recvSeq)
  }

  /** The attempts to connect that are left. */
  function Link(p: Progress, line: Line, tries: nat): (Progress, bool)
    decreases tries
  {
    if tries == 0 then (p, false)
    else
      var q, reply := Say(p, line, ConnectingHdlc, Snrm), Heard(line, |p.trace|);
      if Confirms(reply) then (q, true)
      else if Refuses(reply) then (q, false)
      else Link(q, line, tries - 1)
  }

  /** What a reading is before it is answered: the codes of its entry and nothing else. */
  function Unanswered(e: Entry): Reading { Reading(e.obis, e.obisStr, 0, IntVal(0), false) }

  predicate IsReadResponse(apdu: seq<byte>): (b: bool)
    ensures b ==> |apdu| >= 3
  {
    |apdu| >= 3 && apdu[0] == 0x0C && apdu[1] == 0x01 && apdu[2] == 0x00
  }

  /** `handle_read_response_sn` on a cleared reading. A value that does not parse leaves its type behind. */
  function FromResponse(e: Entry, apdu: seq<byte>): Reading {
    if !IsReadResponse(apdu) then Unanswered(e)
    else
      var data, p := apdu[3..], ParseValue(apdu[3..]);
      Reading(e.obis, e.obisStr, if |data| >= 1 then data[0] else 0,
              if p.Good? then AxdrDecoder.Store(p.tree, IntVal(0)) else IntVal(0), p.Good?)
  }

  function Answer(e: Entry, reply: Option<Frame>): Reading {
    match reply
    case None => Unanswered(e)
    case Some(f) => FromResponse(e, f.info)
  }

  /** The loop over the entries from the i-th on. A slot whose lock is not obtained keeps its old reading. */
  function ReadAll(p: Progress, line: Line, entries: seq<Entry>, i: nat, slots: seq<Reading>): (Progress, seq<Reading>)
    requires i <= |entries| == |slots|
    decreases |entries| - i
  {
    if i == |entries| then (p, slots)
    else
      var q, reply := Ask(p, line, RequestSent, ReadRequest(entries[i].shortName)), Heard(line, |p.trace|);
      ReadAll(q, line, entries, i + 1, if line.locks(i) then slots[i := Answer(entries[i], reply)] else slots)
  }

  const START := Progress([], 0, 0)

  function Bump(n: nat): nat { (n + 1) % COUNTER_MODULUS }

  /** What follows a confirmed connection: association, reads if it is accepted, disconnect. */
  function Talk(p: Progress, line: Line, password: Option<seq<byte>>, entries: seq<Entry>, slots: seq<Reading>)
    : (Progress, seq<Reading>)
    requires |entries| == |slots|
  {
    var q := Ask(p, line, ConnectingDlms, Aarq(password));
    var (r, after) := if Accepted(Heard(line, |p.trace|)) then ReadAll(q, line, entries, 0, slots) else (q, slots);
    (Say(r, line, Disconnecting, Disc), after)
  }

  function Cycle(s: Poller, password: Option<seq<byte>>, line: Line): Outcome
    requires s.Valid()
  {
    var (p, up) := Link(START, line, MAX_RETRIES);
    if !up then Outcome(s.(errors := Bump(s.errors)), p, false)
    else
      var (q, slots) := Talk(p, line, password, s.entries, s.slots);
      Outcome(s.(slots := slots, polls := Bump(s.polls)), q, true)
  }

  // ---------- What a cycle sends ----------

  /** How many exchanges at the start are attempts to connect. */
  function Attempts(t: seq<Exchange>): (n: nat)
    ensures n <= |t| && forall k :: 0 <= k < n ==> t[k].sent.Snrm?
    ensures n < |t| ==> !t[n].sent.Snrm?
  {
    if t == [] || !t[0].sent.Snrm? then 0 else 1 + Attempts(t[1..])
  }

  predicate Attempt(x: Exchange) { x.sent.Snrm? && x.during == ConnectingHdlc }

  predicate Undecided(reply: Option<Frame>) { !Confirms(reply) && !Refuses(reply) }

  lemma {:induction false} LinkShape(p: Progress, line: Line, tries: nat)
    requires forall k :: 0 <= k < |p.trace| ==> Attempt(p.trace[k]) && Undecided(p.trace[k].reply)
    ensures var (q, up) := Link(p, line, tries);
      var t := q.trace;
      |p.trace| <= |t| <= |p.trace| + tries && q.sendSeq == p.sendSeq && q.recvSeq == p.recvSeq
      && (forall k :: 0 <= k < |t| ==> Attempt(t[k]))
      && (forall k :: 0 <= k < |t| - 1 ==> Undecided(t[k].reply))
      && (up ==> |t| > |p.trace| && Confirms(t[|t| - 1].reply))
      && (!up && |t| > 0 ==> !Confirms(t[|t| - 1].reply) && (|t| == |p.trace| + tries || Refuses(t[|t| - 1].reply)))
      && (tries > 0 ==> |t| > |p.trace|)
    decreases tries
  {
    hide Heard, IsUa;
    if tries > 0 {
      var q, reply := Say(p, line, ConnectingHdlc, Snrm), Heard(line, |p.trace|);
      if Undecided(reply) { LinkShape(q, line, tries - 1); }
    }
  }

  /** The N(R) that acknowledges the answers to a run of I-frames. */
  function Acknowledging(u: seq<Exchange>): byte {
    if u == [] then 0
    else
      var last := u[|u| - 1].reply;
      if Numbered(last) then NextSeq(SendSeq(last.value.control)) else Acknowledging(u[..|u| - 1])
  }

  /** The exchange that comes after `u` is an I-frame with the right numbers. */
  ghost predicate InOrder(x: Exchange, u: seq<Exchange>, during: State, apdu: seq<byte>) {
    x.during == during && x.sent.Iframe? && x.sent.apdu == apdu
    && Val(x.sent.sendSeq) == |u| % 8 && x.sent.recvSeq == Acknowledging(u)
  }

  ghost predicate Counted(p: Progress, n: nat) {
    n <= |p.trace| && Val(p.sendSeq) == (|p.trace| - n) % 8 && p.recvSeq == Acknowledging(p.trace[n..])
  }

  lemma NextSeqCounts(n: byte)
    ensures Val(NextSeq(n)) == (Val(n) + 1) % 8
  {
    LowThree(n + 1);
    if n == 255 { assert Val(n + 1) == 0; } else { OctetNext(n); }
  }

  lemma AcknowledgingSnoc(u: seq<Exchange>, x: Exchange)
    ensures Acknowledging(u + [x]) ==
      if Numbered(x.reply) then NextSeq(SendSeq(x.reply.value.control)) else Acknowledging(u)
  {
    hide NextSeq, SendSeq, IsI;
    assert (u + [x])[..|u|] == u;
  }

  lemma SuffixSnoc<T>(t: seq<T>, x: T, n: nat)
    requires n <= |t|
    ensures (t + [x])[n..] == t[n..] + [x]
  {
  }

  lemma AskCounts(p: Progress, line: Line, during: State, apdu: seq<byte>, n: nat)
    requires Counted(p, n)
    ensures var q := Ask(p, line, during, apdu);
      Counted(q, n) && InOrder(q.trace[|p.trace|], p.trace[n..], during, apdu)
  {
    hide Heard, NextSeq, SendSeq, IsI, Val, Acknowledging;
    var x := Ask(p, line, during, apdu).trace[|p.trace|];
    NextSeqCounts(p.sendSeq);
    AcknowledgingSnoc(p.trace[n..], x);
    SuffixSnoc(p.trace, x, n);
  }

  /** The k-th exchange from `base` on reads the k-th entry. */
  ghost predicate Reads(t: seq<Exchange>, n: nat, base: nat, entries: seq<Entry>, i: nat) {
    n <= base && |t| == base + |entries|
    && forall k: nat :: i <= k < |entries| ==>
         InOrder(t[base + k], t[n..base + k], RequestSent, ReadRequest(entries[k].shortName))
  }

  lemma {:induction false} ReadAllSends(p: Progress, line: Line, entries: seq<Entry>, i: nat, slots: seq<Reading>,
                                        n: nat, base: nat)
    requires i <= |entries| == |slots| && Counted(p, n) && |p.trace| == base + i && n <= base
    ensures var q := ReadAll(p, line, entries, i, slots).0;
      Counted(q, n) && Reads(q.trace, n, base, entries, i) && p.trace <= q.trace
    decreases |entries| - i
  {
    hide Heard, InOrder, Answer, ReadRequest, Acknowledging;
    if i < |entries| {
      var q := Ask(p, line, RequestSent, ReadRequest(entries[i].shortName));
      AskCounts(p, line, RequestSent, ReadRequest(entries[i].shortName), n);
      var next := if line.locks(i) then slots[i := Answer(entries[i], Heard(line, |p.trace|))] else slots;
      ReadAllSends(q, line, entries, i + 1, next, n, base);
      var t := ReadAll(q, line, entries, i + 1, next).0.trace;
      assert t[|p.trace|] == q.trace[|p.trace|];
      assert t[n..|p.trace|] == q.trace[n..|p.trace|] == p.trace[n..];
    }
  }

  lemma {:induction false} ReadAllStores(p: Progress, line: Line, entries: seq<Entry>, i: nat, slots: seq<Reading>,
      base: nat)
    requires i <= |entries| == |slots| && |p.trace| == base + i
    ensures var after := ReadAll(p, line, entries, i, slots).1;
      |after| == |slots| && (forall k: nat :: k < i ==> after[k] == slots[k])
      && (forall k: nat :: i <= k < |entries| ==>
           after[k] == if line.locks(k) then Answer(entries[k], Heard(line, base + k)) else slots[k])
    decreases |entries| - i
  {
    hide Heard, Answer, ReadRequest;
    if i < |entries| {
      var q := Ask(p, line, RequestSent, ReadRequest(entries[i].shortName));
      var next := if line.locks(i) then slots[i := Answer(entries[i], Heard(line, |p.trace|))] else slots;
      ReadAllStores(q, line, entries, i + 1, next, base);
    }
  }

  /** Every exchange records what was heard during its own wait. */
  ghost predicate Recorded(t: seq<Exchange>, line: Line) {
    forall k: nat :: k < |t| ==> t[k].reply == Heard(line, k)
  }

  lemma {:induction false} LinkRecords(p: Progress, line: Line, tries: nat)
    requires Recorded(p.trace, line)
    ensures Recorded(Link(p, line, tries).0.trace, line)
    decreases tries
  {
    hide Heard, IsUa;
    if tries > 0 {
      LinkRecords(Say(p, line, ConnectingHdlc, Snrm), line, tries - 1);
    }
  }

  lemma {:induction false} ReadAllRecords(p: Progress, line: Line, entries: seq<Entry>, i: nat, slots: seq<Reading>)
    requires i <= |entries| == |slots| && Recorded(p.trace, line)
    ensures Recorded(ReadAll(p, line, entries, i, slots).0.trace, line)
    decreases |entries| - i
  {
    hide Heard, Answer, ReadRequest;
    if i < |entries| {
      var q := Ask(p, line, RequestSent, ReadRequest(entries[i].shortName));
      var next := if line.locks(i) then slots[i := Answer(entries[i], Heard(line, |p.trace|))] else slots;
      ReadAllRecords(q, line, entries, i + 1, next);
    }
  }

  /** The beginning of a cycle: up to three attempts, the last one decided or the third. */
  ghost predicate Linking(t: seq<Exchange>, n: nat, linked: bool) {
    1 <= n <= MAX_RETRIES && n <= |t|
    && (forall k :: 0 <= k < n ==> Attempt(t[k]))
    && (forall k :: 0 <= k < n - 1 ==> Undecided(t[k].reply))
    && (linked <==> Confirms(t[n - 1].reply))
    && (!linked ==> |t| == n && (n == MAX_RETRIES || Refuses(t[n - 1].reply)))
  }

  /** The rest of a cycle whose link came up: the association, one read for each entry if it was accepted,
      and the disconnect. */
  ghost predicate Talking(t: seq<Exchange>, n: nat, entries: seq<Entry>, password: Option<seq<byte>>) {
    n + 2 <= |t|
    && InOrder(t[n], [], ConnectingDlms, Aarq(password))
    && t[|t| - 1].sent == Disc && t[|t| - 1].during == Disconnecting
    && if Accepted(t[n].reply) then Reads(t[..|t| - 1], n, n + 1, entries, 0) else |t| == n + 2
  }

  lemma AttemptsAre(t: seq<Exchange>, n: nat)
    requires n <= |t| && (forall k :: 0 <= k < n ==> t[k].sent.Snrm?) && (n < |t| ==> !t[n].sent.Snrm?)
    ensures Attempts(t) == n
  {
  }

  /** What connecting leaves behind. */
  lemma LinkDone(line: Line)
    ensures var (p, up) := Link(START, line, MAX_RETRIES);
      var n := |p.trace|;
      Recorded(p.trace, line) && Linking(p.trace, n, up) && Attempts(p.trace) == n && p.sendSeq == 0 && p.recvSeq == 0
  {
    hide Heard, Link, Confirms, Refuses;
    LinkShape(START, line, MAX_RETRIES);
    LinkRecords(START, line, MAX_RETRIES);
    var t := Link(START, line, MAX_RETRIES).0.trace;
    AttemptsAre(t, |t|);
  }

  lemma CountedAtStart(p: Progress)
    requires p.sendSeq == 0 && p.recvSeq == 0
    ensures Counted(p, |p.trace|)
  {
    assert p.trace[|p.trace|..] == [];
  }

  lemma Associating(p: Progress, line: Line, password: Option<seq<byte>>)
    requires p.sendSeq == 0 && p.recvSeq == 0 && Recorded(p.trace, line)
    ensures var n, q := |p.trace|, Ask(p, line, ConnectingDlms, Aarq(password));
      |q.trace| == n + 1 && p.trace <= q.trace && Recorded(q.trace, line) && Counted(q, n)
      && InOrder(q.trace[n], [], ConnectingDlms, Aarq(password))
  {
    hide Heard, InOrder, Aarq, NextSeq, Acknowledging;
    CountedAtStart(p);
    AskCounts(p, line, ConnectingDlms, Aarq(password), |p.trace|);
    assert p.trace[|p.trace|..] == [];
  }

  lemma ReadsLength(t: seq<Exchange>, n: nat, base: nat, entries: seq<Entry>, i: nat)
    requires Reads(t, n, base, entries, i)
    ensures |t| == base + |entries|
  {
  }

  lemma InOrderParts(x: Exchange, u: seq<Exchange>, during: State, apdu: seq<byte>)
    requires InOrder(x, u, during, apdu)
    ensures x.sent.Iframe? && x.sent.apdu == apdu && x.during == during
  {
  }

  lemma Disconnects(p: seq<Exchange>, q: seq<Exchange>, r: seq<Exchange>, line: Line, entries: seq<Entry>,
                    password: Option<seq<byte>>)
    requires var n := |p|;
      Linking(p, n, true) && |q| == n + 1 && p <= q <= r && Recorded(r, line)
      && InOrder(q[n], [], ConnectingDlms, Aarq(password))
      && if Accepted(Heard(line, n)) then Reads(r, n, n + 1, entries, 0) else r == q
    ensures var t, n := r + [Exchange(Disconnecting, Disc, Heard(line, |r|))], |p|;
      Recorded(t, line) && Attempts(t) == n && Linking(t, n, true) && Talking(t, n, entries, password)
  {
    hide Heard, InOrder, Aarq, Confirms, Refuses, Accepted, Reads;
    var t, n := r + [Exchange(Disconnecting, Disc, Heard(line, |r|))], |p|;
    assert forall k :: 0 <= k < n ==> t[k] == p[k];
    assert t[n] == q[n] && t[..|t| - 1] == r;
    InOrderParts(t[n], [], ConnectingDlms, Aarq(password));
    AttemptsAre(t, n);
    assert t[n].reply == Heard(line, n);
    if Accepted(Heard(line, n)) { ReadsLength(r, n, n + 1, entries, 0); }
  }

  /** What follows the association request, as far as the disconnect. */
  lemma Cycled(s: Poller, q: Progress, line: Line, n: nat) returns (r: Progress)
    requires s.Valid() && Recorded(q.trace, line) && Counted(q, n) && |q.trace| == n + 1
    ensures r == if Accepted(Heard(line, n)) then ReadAll(q, line, s.entries, 0, s.slots).0 else q
    ensures q.trace <= r.trace && Recorded(r.trace, line) && Counted(r, n)
    ensures if Accepted(Heard(line, n)) then Reads(r.trace, n, n + 1, s.entries, 0) else r == q
  {
    hide Heard, InOrder, Answer, ReadRequest, Accepted, ReadAll, Counted;
    r := if Accepted(Heard(line, n)) then ReadAll(q, line, s.entries, 0, s.slots).0 else q;
    ReadAllSends(q, line, s.entries, 0, s.slots, n, n + 1);
    ReadAllRecords(q, line, s.entries, 0, s.slots);
  }

  /** For every meter and every line, a cycle is at most three attempts to connect and, after a confirmed one
      only, the association, the reads after an accepted association only, and one disconnect. Every I-frame
      has the N(S) of its place and acknowledges exactly the numbered answers to the I-frames before it. */
  lemma CycleShape(s: Poller, password: Option<seq<byte>>, line: Line)
    requires s.Valid()
    ensures var o := Cycle(s, password, line);
      var t := o.progress.trace;
      Recorded(t, line) && Linking(t, Attempts(t), o.linked)
        && (o.linked ==> Talking(t, Attempts(t), s.entries, password))
  {
    hide Heard, InOrder, Aarq, Link, Accepted, Linking, Talking, Recorded, Reads, Ask, ReadAll;
    LinkDone(line);
    var (p, up) := Link(START, line, MAX_RETRIES);
    var n := |p.trace|;
    if up {
      var q := Ask(p, line, ConnectingDlms, Aarq(password));
      Associating(p, line, password);
      var r := Cycled(s, q, line, n);
      Disconnects(p.trace, q.trace, r.trace, line, s.entries, password);
    }
  }

  // ---------- Safety, read off the trace ----------

  predicate IsRead(x: Exchange) { x.sent.Iframe? && |x.sent.apdu| > 0 && x.sent.apdu[0] == 0x05 }

  lemma OnlyReadsAreReads(password: Option<seq<byte>>)
    ensures Aarq(password)[0] == 0x60
  {
    hide Low8;
  }

  lemma ReadAt(t: seq<Exchange>, n: nat, base: nat, entries: seq<Entry>, k: nat)
    requires Reads(t, n, base, entries, 0) && base <= k < |t|
    ensures InOrder(t[k], t[n..k], RequestSent, ReadRequest(entries[k - base].shortName))
  {
    hide InOrder, ReadRequest;
    var j: nat := k - base;
    assert InOrder(t[base + j], t[n..base + j], RequestSent, ReadRequest(entries[j].shortName));
  }

  lemma TalkingSize(t: seq<Exchange>, n: nat, entries: seq<Entry>, password: Option<seq<byte>>)
    requires Talking(t, n, entries, password)
    ensures n + 2 <= |t|
  {
  }

  lemma TalkingKinds(t: seq<Exchange>, n: nat, entries: seq<Entry>, password: Option<seq<byte>>, k: nat)
    requires Talking(t, n, entries, password) && n <= k < |t|
    ensures if k == |t| - 1 then t[k].sent.Disc? else t[k].sent.Iframe?
    ensures t[n].sent.Iframe? && t[n].sent.apdu == Aarq(password)
    ensures n < k < |t| - 1 ==> Accepted(t[n].reply)
  {
    hide InOrder, Aarq, Accepted, Reads, ReadRequest;
    InOrderParts(t[n], [], ConnectingDlms, Aarq(password));
    if Accepted(t[n].reply) { ReadsLength(t[..|t| - 1], n, n + 1, entries, 0); }
    if n < k < |t| - 1 {
      ReadAt(t[..|t| - 1], n, n + 1, entries, k);
      InOrderParts(t[k], t[..|t| - 1][n..k], RequestSent, ReadRequest(entries[k - n - 1].shortName));
    }
  }

  /** Whatever the meter answers: no I-frame before a confirmed connection, no read before an accepted
      association, and exactly one disconnect, at the end, if the connection was confirmed and none otherwise. */
  lemma CycleIsSafe(s: Poller, password: Option<seq<byte>>, line: Line)
    requires s.Valid()
    ensures var o := Cycle(s, password, line); var t := o.progress.trace;
      && Attempts(t) <= MAX_RETRIES && (forall k: nat :: Attempts(t) <= k < |t| ==> !t[k].sent.Snrm?)
      && (forall k: nat :: k < |t| && t[k].sent.Iframe? ==>
           exists j: nat :: j < k && t[j].sent.Snrm? && (Says(t[j].reply, 0x73) || Says(t[j].reply, 0x63)))
      && (forall k: nat :: k < |t| && IsRead(t[k]) ==>
           exists j: nat :: j < k && t[j].sent.Iframe? && t[j].sent.apdu == Aarq(password)
             && t[j].reply.Some? && AareAccepted(t[j].reply.value.info))
      && (forall k: nat :: k < |t| ==> (t[k].sent.Disc? <==> o.linked && k == |t| - 1))
      && (o.linked <==>
           exists j: nat :: j < |t| && t[j].sent.Snrm? && (Says(t[j].reply, 0x73) || Says(t[j].reply, 0x63)))
  {
    hide Cycle, Aarq, Accepted, Talking, Confirms, Refuses, Recorded, Says;
    CycleShape(s, password, line);
    OnlyReadsAreReads(password);
    var o := Cycle(s, password, line);
    var t := o.progress.trace;
    var n := Attempts(t);
    forall k: nat | k < n ensures Confirms(t[k].reply) <==> Says(t[k].reply, 0x73) || Says(t[k].reply, 0x63) {
      DecidedBy(t[k].reply);
    }
    forall x: Exchange | Accepted(x.reply) ensures x.reply.Some? && AareAccepted(x.reply.value.info) {
      AcceptedBy(x.reply);
    }
    if o.linked {
      assert t[n - 1].sent.Snrm? && (Says(t[n - 1].reply, 0x73) || Says(t[n - 1].reply, 0x63));
      TalkingSize(t, n, s.entries, password);
      forall k: nat | n <= k < |t|
        ensures if k == |t| - 1 then t[k].sent.Disc? else t[k].sent.Iframe?
        ensures t[n].sent.Iframe? && t[n].sent.apdu == Aarq(password)
        ensures n < k < |t| - 1 ==> Accepted(t[n].reply)
      {
        TalkingKinds(t, n, s.entries, password, k);
      }
    }
  }

  // ---------- Readings and counters ----------

  /** The meter accepted the association. */
  predicate Associated(t: seq<Exchange>) {
    var n := Attempts(t);
    n < |t| && t[n].sent.Iframe? && Accepted(t[n].reply)
  }

  /** Each slot holds what its own request was answered, or its old reading where the lock was not obtained. */
  ghost predicate Stored(t: seq<Exchange>, base: nat, entries: seq<Entry>, line: Line, before: seq<Reading>,
                         after: seq<Reading>)
  {
    |t| == base + |entries| + 1 && |before| == |after| == |entries|
    && forall k: nat :: k < |entries| ==>
         after[k] == if line.locks(k) then Answer(entries[k], t[base + k].reply) else before[k]
  }

  lemma ReadAllStored(q: Progress, line: Line, entries: seq<Entry>, slots: seq<Reading>, t: seq<Exchange>, base: nat)
    requires |entries| == |slots| && |q.trace| == base && Recorded(t, line) && |t| == base + |entries| + 1
    ensures var after := ReadAll(q, line, entries, 0, slots).1;
      |after| == |slots| && Stored(t, base, entries, line, slots, after)
  {
    hide Heard, Answer, ReadAll;
    ReadAllStores(q, line, entries, 0, slots, base);
  }

  lemma RecordedAt(t: seq<Exchange>, line: Line, k: nat)
    requires Recorded(t, line) && k < |t|
    ensures t[k].reply == Heard(line, k)
  {
  }

  /** After an accepted association, and only then, the slots are replaced. Exactly one counter moves. */
  lemma CycleStores(s: Poller, password: Option<seq<byte>>, line: Line)
    requires s.Valid()
    ensures var o := Cycle(s, password, line); var t := o.progress.trace;
      && o.after.Valid() && o.after.entries == s.entries
      && o.after.polls == (if o.linked then Bump(s.polls) else s.polls)
      && o.after.errors == (if o.linked then s.errors else Bump(s.errors))
      && if Associated(t) then Stored(t, Attempts(t) + 1, s.entries, line, s.slots, o.after.slots)
         else o.after.slots == s.slots
  {
    hide Heard, Aarq, Accepted, Ask, ReadAll, Link, Stored, Reads, Recorded, InOrder;
    CycleShape(s, password, line);
    var (p, up) := Link(START, line, MAX_RETRIES);
    LinkDone(line);
    if up {
      var q := Ask(p, line, ConnectingDlms, Aarq(password));
      var t, n := Cycle(s, password, line).progress.trace, |p.trace|;
      Associating(p, line, password);
      var r := Cycled(s, q, line, n);
      Disconnects(p.trace, q.trace, r.trace, line, s.entries, password);
      TalkingKinds(t, n, s.entries, password, n);
      RecordedAt(t, line, n);
      if Accepted(Heard(line, n)) {
        ReadsLength(r.trace, n, n + 1, s.entries, 0);
        ReadAllStored(q, line, s.entries, s.slots, t, n + 1);
      }
    }
  }

  // ---------- Sequence numbers ----------

  /** How many numbered answers came. */
  function Answers(u: seq<Exchange>): nat {
    if u == [] then 0 else Answers(u[..|u| - 1]) + if Numbered(u[|u| - 1].reply) then 1 else 0
  }

  /** The meter numbers its I-frames consecutively from 0. */
  ghost predicate Consecutive(u: seq<Exchange>) {
    forall k: nat :: k < |u| && Numbered(u[k].reply) ==> Val(SendSeq(u[k].reply.value.control)) == Answers(u[..k]) % 8
  }

  /** At every point the next N(R) counts the numbered answers so far. */
  ghost predicate Acknowledged(u: seq<Exchange>) {
    forall k: nat :: k <= |u| ==> Val(Acknowledging(u[..k])) == Answers(u[..k]) % 8
  }

  lemma SendSeqSmall(control: byte)
    ensures Val(SendSeq(control)) < 8
  {
    LowThree(control >> 1);
  }

  lemma AcknowledgingNext(u: seq<Exchange>, k: nat)
    requires k < |u|
    ensures var c := Answers(u[..k]); var reply := u[k].reply;
      if Numbered(reply) then
        Answers(u[..k + 1]) == c + 1
        && (Val(Acknowledging(u[..k + 1])) == (c + 1) % 8 <==> Val(SendSeq(reply.value.control)) == c % 8)
      else Answers(u[..k + 1]) == c && Acknowledging(u[..k + 1]) == Acknowledging(u[..k])
  {
    hide NextSeq, SendSeq, IsI, Val;
    var v := u[..k + 1];
    assert v[..|v| - 1] == u[..k] && v[|v| - 1] == u[k];
    if Numbered(u[k].reply) {
      SendSeqSmall(u[k].reply.value.control);
      NextSeqCounts(SendSeq(u[k].reply.value.control));
    }
  }

  lemma {:induction false} ConsecutivePrefix(u: seq<Exchange>, k: nat)
    requires Consecutive(u) && k <= |u|
    ensures Val(Acknowledging(u[..k])) == Answers(u[..k]) % 8
    decreases k
  {
    hide NextSeq, SendSeq, IsI;
    if k > 0 {
      ConsecutivePrefix(u, k - 1);
      AcknowledgingNext(u, k - 1);
    } else {
      assert Val(0) == 0;
    }
  }

  /** The N(R) sent counts the answers received, modulo 8, at every point of a run exactly when the meter
      numbers them consecutively. */
  lemma AcknowledgedIffConsecutive(u: seq<Exchange>)
    ensures Acknowledged(u) <==> Consecutive(u)
  {
    hide NextSeq, SendSeq, IsI, Acknowledging, Answers;
    if Consecutive(u) {
      forall k: nat | k <= |u| ensures Val(Acknowledging(u[..k])) == Answers(u[..k]) % 8 { ConsecutivePrefix(u, k); }
    }
    if Acknowledged(u) {
      forall k: nat | k < |u| && Numbered(u[k].reply)
        ensures Val(SendSeq(u[k].reply.value.control)) == Answers(u[..k]) % 8
      {
        AcknowledgingNext(u, k);
        assert Val(Acknowledging(u[..k + 1])) == Answers(u[..k + 1]) % 8;
      }
    }
  }

  lemma TalkingInOrder(t: seq<Exchange>, n: nat, entries: seq<Entry>, password: Option<seq<byte>>, k: nat)
    requires Talking(t, n, entries, password) && n <= k < |t| - 1
    ensures t[k].sent.Iframe? && Val(t[k].sent.sendSeq) == (k - n) % 8 && t[k].sent.recvSeq == Acknowledging(t[n..k])
  {
    hide Aarq, Accepted, Reads, ReadRequest, Acknowledging;
    if k == n {
      assert t[n..n] == [];
    } else {
      var u := t[..|t| - 1];
      ReadAt(u, n, n + 1, entries, k);
      assert u[n..k] == t[n..k];
    }
  }

  /** From `n` on, up to the last exchange, the k-th I-frame carries N(S) = k modulo 8, and its N(R) counts the
      numbered answers so far modulo 8 if the meter has numbered them consecutively. */
  ghost predicate WellNumbered(t: seq<Exchange>, n: nat) {
    n <= |t|
    && forall k: nat :: n <= k < |t| - 1 ==>
         t[k].sent.Iframe? && Val(t[k].sent.sendSeq) == (k - n) % 8
         && (Consecutive(t[n..k]) ==> Val(t[k].sent.recvSeq) == Answers(t[n..k]) % 8)
  }

  /** Every cycle numbers its I-frames so, whatever it hears. */
  lemma CycleNumbers(s: Poller, password: Option<seq<byte>>, line: Line)
    requires s.Valid()
    ensures var o := Cycle(s, password, line); WellNumbered(o.progress.trace, Attempts(o.progress.trace))
  {
    hide Cycle, Talking, Acknowledging, Answers, Consecutive, Recorded;
    CycleShape(s, password, line);
    var o := Cycle(s, password, line);
    var t, n := o.progress.trace, Attempts(o.progress.trace);
    if o.linked {
      forall k: nat | n <= k < |t| - 1
        ensures t[k].sent.Iframe? && Val(t[k].sent.sendSeq) == (k - n) % 8
        ensures Consecutive(t[n..k]) ==> Val(t[k].sent.recvSeq) == Answers(t[n..k]) % 8
      {
        TalkingInOrder(t, n, s.entries, password, k);
        if Consecutive(t[n..k]) {
          ConsecutivePrefix(t[n..k], k - n);
          assert t[n..k][..k - n] == t[n..k];
        }
      }
    }
  }

  /** After a cycle the client's own numbers are those of its next I-frame: N(S) counts the I-frames sent, and
      N(R) acknowledges the answers to them, so counts these if the meter has numbered them consecutively. The
      answer to the disconnect changes neither. */
  lemma CycleEndsNumbered(s: Poller, password: Option<seq<byte>>, line: Line)
    requires s.Valid() && Cycle(s, password, line).linked
    ensures var p := Cycle(s, password, line).progress; var n := Attempts(p.trace);
      n < |p.trace| && var u := p.trace[n..|p.trace| - 1];
      Val(p.sendSeq) == |u| % 8 && p.recvSeq == Acknowledging(u)
      && (Consecutive(u) ==> Val(p.recvSeq) == Answers(u) % 8)
  {
    hide Heard, InOrder, Aarq, Link, Accepted, Linking, Talking, Recorded, Reads, Ask, ReadAll, Acknowledging, Answers,
      Consecutive, Attempts, Val;
    LinkDone(line);
    var p := Link(START, line, MAX_RETRIES).0;
    var n := |p.trace|;
    var q := Ask(p, line, ConnectingDlms, Aarq(password));
    Associating(p, line, password);
    var r := Cycled(s, q, line, n);
    Disconnects(p.trace, q.trace, r.trace, line, s.entries, password);
    var t := Cycle(s, password, line).progress.trace;
    var u := t[n..|t| - 1];
    assert u == r.trace[n..];
    if Consecutive(u) {
      ConsecutivePrefix(u, |u|);
      assert u[..|u|] == u;
    }
  }
}
