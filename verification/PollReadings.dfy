/** The registered entries and their readings, over registrations and any run of poll cycles. */
module PollReadings {
  import opened Bytes
  import opened Hdlc
  import opened HdlcParser
  import HdlcRoundTrip
  import FrameFinder
  import opened Receiver
  import opened Axdr
  import opened AxdrDecoder
  import opened Readings
  import opened PollSession
  import Association
  import Obis

  const MAX_ENTRIES := 32
  const OBIS_STR_LEN := 32

  // ---------- Registration and look-up ----------

  /** The six octets that a text leaves in a zeroed code; a text that is no code leaves what could be scanned. */
  function Padded(text: string): (code: seq<byte>)
    ensures |code| == Obis.CODE_LEN
  {
    var bs := Obis.Scan(text, Obis.CODE_LEN);
    bs + ZERO_OBIS[|bs|..]
  }

  function EntryOf(text: string, shortName: bv16): Entry {
    Entry(Padded(text), text[..Min(|text|, OBIS_STR_LEN - 1)], shortName)
  }

  /** `dlms_client_add_obis` */
  function Register(s: Poller, text: string, shortName: bv16): Option<Poller> {
    if |s.entries| >= MAX_ENTRIES then None
    else
      var e := EntryOf(text, shortName);
      Some(s.(entries := s.entries + [e], slots := s.slots + [Unanswered(e)]))
  }

  datatype Lookup = InvalidArg | Timeout | NotFound | Found(reading: Reading)

  function FirstWith(slots: seq<Reading>, code: seq<byte>): (k: nat)
    ensures k <= |slots| && (k < |slots| ==> slots[k].obis == code)
    ensures forall j :: 0 <= j < k ==> slots[j].obis != code
  {
    if slots == [] || slots[0].obis == code then 0 else 1 + FirstWith(slots[1..], code)
  }

  /** `dlms_client_get_reading` */
  function GetReading(s: Poller, text: string, locked: bool): Lookup {
    match Obis.Code(text)
    case None => InvalidArg
    case Some(code) =>
      if !locked then Timeout
      else
        var k := FirstWith(s.slots, code);
        if k < |s.slots| then Found(s.slots[k]) else NotFound
  }

  /** Every slot carries the codes of its entry. */
  ghost predicate Aligned(s: Poller): (b: bool)
    ensures b ==> s.Valid()
  {
    s.Valid() && |s.entries| <= MAX_ENTRIES
    && forall k: nat :: k < |s.entries| ==>
         s.slots[k].obis == s.entries[k].obis && s.slots[k].obisStr == s.entries[k].obisStr
         && |s.entries[k].obis| == Obis.CODE_LEN
  }

  // ---------- Runs ----------

  datatype Action = Add(text: string, shortName: bv16) | Poll(password: Option<seq<byte>>, line: Line)

  function Act(s: Poller, a: Action): (r: Poller)
    requires s.Valid()
    ensures r.Valid()
  {
    match a
    case Add(text, shortName) =>
      var r := Register(s, text, shortName);
      if r.Some? then r.value else s
    case Poll(password, line) =>
      CycleStores(s, password, line);
      Cycle(s, password, line).after
  }

  function Run(s: Poller, actions: seq<Action>): (r: Poller)
    requires s.Valid()
    ensures r.Valid()
    decreases |actions|
  {
    if actions == [] then s else Run(Act(s, actions[0]), actions[1..])
  }

  function Polls(actions: seq<Action>): nat {
    if actions == [] then 0 else Polls(actions[1..]) + if actions[0].Poll? then 1 else 0
  }

  lemma AnswerCodes(e: Entry, reply: Option<Frame>)
    ensures Answer(e, reply).obis == e.obis && Answer(e, reply).obisStr == e.obisStr
  {
    hide ParseValue, Store;
  }

  lemma StoredAligned(t: seq<Exchange>, base: nat, s: Poller, line: Line, after: seq<Reading>)
    requires Aligned(s) && Stored(t, base, s.entries, line, s.slots, after)
    ensures Aligned(s.(slots := after))
  {
    hide Answer;
    forall k: nat | k < |s.entries|
      ensures after[k].obis == s.entries[k].obis && after[k].obisStr == s.entries[k].obisStr {
      if line.locks(k) { AnswerCodes(s.entries[k], t[base + k].reply); }
    }
  }

  lemma ActAligns(s: Poller, a: Action)
    requires Aligned(s)
    ensures Aligned(Act(s, a))
    ensures (Act(s, a).polls + Act(s, a).errors) % COUNTER_MODULUS
         == (s.polls + s.errors + if a.Poll? then 1 else 0) % COUNTER_MODULUS
  {
    hide Cycle, Stored, Associated, Padded;
    if a.Poll? {
      CycleStores(s, a.password, a.line);
      var o := Cycle(s, a.password, a.line);
      if Associated(o.progress.trace) {
        StoredAligned(o.progress.trace, Attempts(o.progress.trace) + 1, s, a.line, o.after.slots);
      }
    }
  }

  lemma CountOn(a: nat, b: nat, n: nat)
    requires a % COUNTER_MODULUS == b % COUNTER_MODULUS
    ensures (a + n) % COUNTER_MODULUS == (b + n) % COUNTER_MODULUS
  {
  }

  /** Over every run of registrations and cycles, slots stay with their entries, and the two counters together
      count the cycles modulo 2 to the power 32. */
  lemma {:induction false} RunKeeps(s: Poller, actions: seq<Action>)
    requires Aligned(s)
    ensures var r := Run(s, actions);
      Aligned(r) && (r.polls + r.errors) % 0x1_0000_0000 == (s.polls + s.errors + Polls(actions)) % 0x1_0000_0000
    decreases |actions|
  {
    hide Act, Aligned;
    if actions != [] {
      var next := Act(s, actions[0]);
      ActAligns(s, actions[0]);
      RunKeeps(next, actions[1..]);
      CountOn(next.polls + next.errors, s.polls + s.errors + (if actions[0].Poll? then 1 else 0), Polls(actions[1..]));
    }
  }

  // ---------- What a caller gets ----------

  /** A text that is no code is refused, with the lock or without; a lock that is not obtained is a timeout; and
      otherwise asking for a code gives the reading of the first entry with that code, and nothing only if no entry
      has it. */
  lemma LookupIff(s: Poller, text: string)
    requires Aligned(s)
    ensures forall locked :: GetReading(s, text, locked).InvalidArg? <==> Obis.Code(text).None?
    ensures GetReading(s, text, false).Timeout? <==> Obis.Code(text).Some?
    ensures Obis.Code(text).Some? ==>
      var code := Obis.Code(text).value; var k := FirstWith(s.slots, code);
      if k < |s.entries| then
        GetReading(s, text, true) == Found(s.slots[k]) && s.slots[k].obis == code == s.entries[k].obis
        && forall j: nat :: j < k ==> s.entries[j].obis != code
      else GetReading(s, text, true) == NotFound && forall j: nat :: j < |s.entries| ==> s.entries[j].obis != code
  {
    hide Obis.Code;
  }

  predicate DifferentCodes(entries: seq<Entry>) {
    forall j: nat, k: nat :: j < k < |entries| ==> entries[j].obis != entries[k].obis
  }

  lemma DifferentAt(entries: seq<Entry>, j: nat, k: nat)
    requires DifferentCodes(entries) && j < k < |entries|
    ensures entries[j].obis != entries[k].obis
  {
  }

  lemma AlignedAt(s: Poller, k: nat)
    requires Aligned(s) && k < |s.entries|
    ensures s.slots[k].obis == s.entries[k].obis && |s.entries[k].obis| == Obis.CODE_LEN
  {
  }

  lemma OwnText(s: Poller, code: seq<byte>)
    requires |code| == Obis.CODE_LEN
    ensures var k := FirstWith(s.slots, code);
      GetReading(s, Obis.Text(code), true) == if k < |s.slots| then Found(s.slots[k]) else NotFound
  {
    hide Obis.Code, Obis.Text, FirstWith;
    Obis.TextRoundTrip(code);
  }

  /** With different codes registered, the text of an entry's code finds the reading of that entry. */
  lemma LookupOwn(s: Poller, i: nat)
    requires Aligned(s) && DifferentCodes(s.entries) && i < |s.entries|
    ensures GetReading(s, Obis.Text(s.entries[i].obis), true) == Found(s.slots[i])
  {
    hide Aligned, FirstWith, DifferentCodes, GetReading, Obis.Text;
    var code := s.entries[i].obis;
    var k := FirstWith(s.slots, code);
    AlignedAt(s, i);
    OwnText(s, code);
    if k < i {
      AlignedAt(s, k);
      DifferentAt(s.entries, k, i);
    }
  }

  /** Up to 32 codes can be registered by their texts; each then has an entry with its octets, its text and its short
      name, and a cleared reading with the octets and the text, behind those registered before. */
  lemma RegisteredByText(s: Poller, code: seq<byte>, shortName: bv16)
    requires s.Valid() && |code| == 6
    ensures var e := Entry(code, Obis.Text(code), shortName);
      Register(s, Obis.Text(code), shortName) ==
        if |s.entries| < 32 then
          Some(Poller(s.entries + [e], s.slots + [Reading(code, Obis.Text(code), 0x00, IntVal(0), false)], s.polls,
                      s.errors))
        else None
  {
    hide Obis.Text, Obis.Scan;
    Obis.ScanPart(code);
    Obis.TextSize(code);
    assert code + ZERO_OBIS[6..] == code;
    assert Obis.Text(code)[..|Obis.Text(code)|] == Obis.Text(code);
  }

  /** A text of fewer numbers leaves those in the code and zeros behind them, and one that starts with no digit leaves
      zeros only; whatever the text is, its first 31 characters are kept. */
  lemma RegisteredAnyway(text: string, octets: seq<byte>, shortName: bv16)
    ensures 1 <= |octets| <= 6 && text == Obis.Text(octets) ==>
      EntryOf(text, shortName).obis == octets + [0, 0, 0, 0, 0, 0][|octets|..]
    ensures text == [] || !Obis.IsDigit(text[0]) ==> EntryOf(text, shortName).obis == [0, 0, 0, 0, 0, 0]
    ensures var kept := EntryOf(text, shortName).obisStr;
      kept <= text && |kept| == if |text| < 32 then |text| else 31
    ensures EntryOf(text, shortName).shortName == shortName
  {
    hide Obis.Text, Obis.Scan;
    if 1 <= |octets| <= 6 && text == Obis.Text(octets) { Obis.ScanPart(octets); }
    if text == [] || !Obis.IsDigit(text[0]) { Obis.ScanNoDigit(text); }
  }

  // ---------- From the meter's octets to a reading ----------

  function Response(tree: Tree): seq<byte> { [0x0C, 0x01, 0x00] + Encode(tree) }

  /** The reading of an entry that was answered with a value. */
  function Holding(e: Entry, tree: Tree): Reading {
    Reading(e.obis, e.obisStr, Encode(tree)[0], Store(tree, IntVal(0)), true)
  }

  /** A read response is taken to hold exactly the value it encodes. */
  lemma ResponseDecodes(e: Entry, tree: Tree)
    requires Valid(tree)
    ensures FromResponse(e, Response(tree)) == Holding(e, tree)
  {
    hide Encode, Store, ParseValue, Valid;
    var apdu := Response(tree);
    ParseComplete(tree, []);
    assert apdu[3..] == Encode(tree) == Encode(tree) + [];
  }

  /** The response to a read is valid exactly if it starts with 0C 01 00 and the encoding of some value; any other
      leaves the reading as it was, but for the type octet behind 0C 01 00. */
  lemma ValidMeansEncoded(e: Entry, apdu: seq<byte>)
    ensures FromResponse(e, apdu).valid <==>
      |apdu| >= 3 && apdu[..3] == [0x0C, 0x01, 0x00]
      && exists t, n: nat :: Valid(t) && n <= |apdu| - 3 && Encode(t) == apdu[3..][..n]
    ensures !FromResponse(e, apdu).valid ==>
      var tag := if |apdu| >= 4 && apdu[..3] == [0x0C, 0x01, 0x00] then apdu[3] else 0x00;
      FromResponse(e, apdu) == Reading(e.obis, e.obisStr, tag, IntVal(0), false)
    ensures Answer(e, None) == Reading(e.obis, e.obisStr, 0x00, IntVal(0), false)
  {
    hide Encode, Store, ParseValue, Valid;
    if IsReadResponse(apdu) {
      var data := apdu[3..];
      if ParseValue(data).Good? {
        ParseSound(data);
        assert Encode(ParseValue(data).tree) == data[..ParseValue(data).used];
      }
      forall t, n: nat | Valid(t) && n <= |data| && Encode(t) == data[..n] ensures ParseValue(data).Good? {
        ParseComplete(t, data[n..]);
        assert data == data[..n] + data[n..];
      }
    }
  }

  /** A frame of the meter on its way: flag-free noise before it, anything after it, whatever addresses and control
      octet, and for an APDU an LLC header or none. A response has the header E6 E7 00. */
  datatype Delivery = Delivery(noise: seq<byte>, rest: seq<byte>, addresses: Addresses, control: byte, llc: seq<byte>) {
    /** The chunks are this delivery of some information, cut in any way; the frame has no flag between its flags. */
    predicate Carries(chunks: seq<seq<byte>>, info: seq<byte>) {
      var w := Wire(addresses, control, info);
      WellAddressed(addresses) && FrameLen(addresses, |info|) <= HdlcRoundTrip.MAX_FRAME_LEN
      && FrameFinder.NoFlag(noise) && FrameFinder.NoFlag(w[1..|w| - 1]) && |noise| + |w| <= RX_BUFFER_SIZE
      && Concat(chunks) == noise + w + rest
    }

    /** The same for an APDU. */
    predicate Brings(chunks: seq<seq<byte>>, apdu: seq<byte>) {
      (llc == [] || llc == [0xE6, 0xE7, 0x00] || llc == [0xE6, 0xE6, 0x00]
       || (|llc| == 3 && llc[0] == 0xE0 && llc[2] == 0x00))
      && Carries(chunks, llc + apdu)
    }
  }

  lemma HeaderRemoved(llc: seq<byte>, apdu: seq<byte>)
    requires llc == [] || llc == [0xE6, 0xE7, 0x00] || llc == [0xE6, 0xE6, 0x00]
      || (|llc| == 3 && llc[0] == 0xE0 && llc[2] == 0x00)
    requires !HasLlc(apdu)
    ensures StripLlc(llc + apdu) == apdu
  {
    if llc == [] { assert llc + apdu == apdu; } else { HdlcRoundTrip.StripHeader(llc, apdu); }
  }

  lemma BringsApdu(d: Delivery, chunks: seq<seq<byte>>, apdu: seq<byte>)
    requires d.Brings(chunks, apdu) && !HasLlc(apdu)
    ensures Wait([], chunks) == Some(Frame(d.control, apdu))
  {
    hide Wait, Wire, FrameFinder.NoFlag, Concat, StripLlc, WellAddressed;
    BuiltFrameArrives(chunks, d.noise, d.rest, d.addresses, d.control, d.llc + apdu);
    HeaderRemoved(d.llc, apdu);
  }

  /** The reading of the i-th entry after a cycle, and what arrived while the cycle waited for its answer. */
  ghost predicate CycleLeaves(s: Poller, password: Option<seq<byte>>, line: Line, i: nat, chunks: seq<seq<byte>>,
      got: Reading)
    requires s.Valid()
  {
    var o := Cycle(s, password, line);
    var t := o.progress.trace;
    Associated(t) && line.locks(i) && i < |s.entries| == |o.after.slots|
    && chunks == line.arrivals(Attempts(t) + 1 + i) && got == o.after.slots[i]
  }

  lemma LeavesAnswer(s: Poller, password: Option<seq<byte>>, line: Line, i: nat, chunks: seq<seq<byte>>, got: Reading)
    requires s.Valid() && CycleLeaves(s, password, line, i, chunks, got)
    ensures got == Answer(s.entries[i], Wait([], chunks))
  {
    hide Cycle, Wait, Answer, Associated, Linking, Talking, Recorded;
    CycleStores(s, password, line);
    CycleShape(s, password, line);
    var t := Cycle(s, password, line).progress.trace;
    RecordedAt(t, line, Attempts(t) + 1 + i);
  }

  lemma NoHeader(tree: Tree)
    ensures !HasLlc(Response(tree))
  {
    hide Encode;
  }

  /** From end to end: when the meter's answer to the i-th read, in a frame behind flag-free noise and cut into
      reads in any way, encodes a value, the slot of that entry holds this value and its own codes. */
  lemma PolledValueArrives(s: Poller, password: Option<seq<byte>>, line: Line, i: nat, chunks: seq<seq<byte>>,
                           got: Reading, d: Delivery, tree: Tree)
    requires s.Valid() && CycleLeaves(s, password, line, i, chunks, got)
    requires Valid(tree) && d.Brings(chunks, Response(tree))
    ensures got == Holding(s.entries[i], tree)
  {
    hide Cycle, Wait, FromResponse, Associated, Response, Encode, Valid, Delivery.Brings;
    NoHeader(tree);
    BringsApdu(d, chunks, Response(tree));
    LeavesAnswer(s, password, line, i, chunks, got);
    ResponseDecodes(s.entries[i], tree);
  }

  /** In particular every integer a meter answers is the integer its entry then shows; an unsigned 64-bit one is
      shown as its signed counterpart. */
  lemma PolledIntegerArrives(s: Poller, password: Option<seq<byte>>, line: Line, i: nat, chunks: seq<seq<byte>>,
                             got: Reading, d: Delivery, tag: byte, v: int, n: nat)
    requires s.Valid() && CycleLeaves(s, password, line, i, chunks, got)
    requires match n
             case 1 => tag == 0x0F || tag == 0x11 || tag == 0x16
             case 2 => tag == 0x10 || tag == 0x12
             case 4 => tag == 0x05 || tag == 0x06
             case 8 => tag == 0x14 || tag == 0x15
             case _ => false
    requires (IsSigned(tag) && 0 <= 2 * v + Pow256(n) < 2 * Pow256(n)) || (IsUnsigned(tag) && 0 <= v < Pow256(n))
    requires d.Brings(chunks, Response(Fixed(tag, Octets(v, n))))
    ensures got.valid && got.obis == s.entries[i].obis && got.dataType == tag
    ensures (got.value.IntVal? || got.value.UintVal?) && AsInt(got.value) == if tag == 0x15 then ToSigned(v, 8) else v
  {
    IntegersDecode(tag, v, n, IntVal(0));
    hide Cycle, Wait, Octets, StoreFixed, Pow256, Response, Delivery.Brings, CycleLeaves;
    PolledValueArrives(s, password, line, i, chunks, got, d, Fixed(tag, Octets(v, n)));
  }

  // ---------- A meter that plays its part ----------

  /** The connection is confirmed at the n-th attempt. */
  ghost predicate ConfirmsAt(line: Line, n: nat) {
    1 <= n <= MAX_RETRIES && (forall k: nat :: k < n - 1 ==> Undecided(Heard(line, k))) && Confirms(Heard(line, n - 1))
  }

  lemma ConfirmedLinks(t: seq<Exchange>, line: Line, m: nat, linked: bool, n: nat)
    requires Linking(t, m, linked) && Recorded(t, line) && ConfirmsAt(line, n)
    ensures linked && m == n
  {
    hide Heard, Confirms, Refuses;
    assert forall k: nat :: k < m ==> t[k].reply == Heard(line, k);
    assert t[m - 1].reply == Heard(line, m - 1);
  }

  lemma LinkedConfirms(t: seq<Exchange>, line: Line, m: nat)
    requires Linking(t, m, true) && Recorded(t, line)
    ensures ConfirmsAt(line, m)
  {
    hide Heard, Confirms, Refuses;
    assert forall k: nat :: k < m ==> t[k].reply == Heard(line, k);
    assert t[m - 1].reply == Heard(line, m - 1);
  }

  /** The k-th wait brings a UA, of one form or the other. */
  ghost predicate UaAt(line: Line, k: nat) { Says(Heard(line, k), 0x73) || Says(Heard(line, k), 0x63) }

  /** One of the first three waits brings a UA, 73 or 63, and none before it a DM, 1F. */
  ghost predicate UaInTime(line: Line, n: nat) {
    n < 3 && UaAt(line, n) && forall k: nat :: k < n ==> !Says(Heard(line, k), 0x1F)
  }

  /** The first of these UAs confirms. */
  lemma {:induction false} FirstUaConfirms(line: Line, n: nat) returns (m: nat)
    requires UaInTime(line, n)
    ensures ConfirmsAt(line, m)
    decreases n
  {
    hide Heard, Says, Confirms, Refuses;
    if k: nat :| k < n && UaAt(line, k) {
      m := FirstUaConfirms(line, k);
    } else {
      m := n + 1;
      DecidedBy(Heard(line, n));
      forall k: nat | k < n ensures Undecided(Heard(line, k)) {
        assert !UaAt(line, k);
        DecidedBy(Heard(line, k));
      }
    }
  }

  lemma ConfirmedByUa(line: Line, n: nat)
    requires ConfirmsAt(line, n)
    ensures UaAt(line, n - 1) && forall k: nat :: k < n - 1 ==> !Says(Heard(line, k), 0x1F)
  {
    hide Heard, Says, Confirms, Refuses;
    DecidedBy(Heard(line, n - 1));
    forall k: nat | k < n - 1 ensures !Says(Heard(line, k), 0x1F) {
      assert Undecided(Heard(line, k));
      DecidedBy(Heard(line, k));
    }
  }

  /** A cycle counts as completed, and not as an error, if and only if one of the first three answers is a UA, 73 or
      63, and none before it is a DM, 1F. */
  lemma CompletedIff(s: Poller, password: Option<seq<byte>>, line: Line)
    requires s.Valid()
    ensures var o := Cycle(s, password, line);
      (o.linked <==> exists n: nat :: UaInTime(line, n))
      && o.after.polls == (if o.linked then (s.polls + 1) % 0x1_0000_0000 else s.polls)
      && o.after.errors == (if o.linked then s.errors else (s.errors + 1) % 0x1_0000_0000)
  {
    hide Cycle, Heard, Confirms, Refuses, ConfirmsAt, Says;
    CycleShape(s, password, line);
    CycleStores(s, password, line);
    var o := Cycle(s, password, line);
    var t, m := o.progress.trace, Attempts(o.progress.trace);
    if o.linked {
      LinkedConfirms(t, line, m);
      ConfirmedByUa(line, m);
      assert UaInTime(line, m - 1);
    }
    if n: nat :| UaInTime(line, n) {
      var first := FirstUaConfirms(line, n);
      ConfirmedLinks(t, line, m, o.linked, first);
    }
  }

  lemma StoredLength(t: seq<Exchange>, base: nat, entries: seq<Entry>, line: Line, before: seq<Reading>,
      after: seq<Reading>)
    requires Stored(t, base, entries, line, before, after)
    ensures |t| == base + |entries| + 1
  {
  }

  /** A cycle that is confirmed and accepted goes through to the end and reads every entry. */
  lemma ConfirmedCycle(s: Poller, password: Option<seq<byte>>, line: Line, n: nat)
    requires s.Valid() && ConfirmsAt(line, n) && Accepted(Heard(line, n))
    ensures var o := Cycle(s, password, line); var t := o.progress.trace;
      o.linked && Attempts(t) == n && Associated(t) && |t| == n + 2 + |s.entries|
      && o.after.polls == Bump(s.polls) && o.after.errors == s.errors
  {
    hide Cycle, Heard, Accepted, Linking, Talking, Recorded, ConfirmsAt, Stored, Bump;
    CycleShape(s, password, line);
    CycleStores(s, password, line);
    var o := Cycle(s, password, line);
    var t := o.progress.trace;
    ConfirmedLinks(t, line, Attempts(t), o.linked, n);
    TalkingSize(t, n, s.entries, password);
    TalkingKinds(t, n, s.entries, password, n);
    RecordedAt(t, line, n);
    StoredLength(t, n + 1, s.entries, line, s.slots, o.after.slots);
  }

  lemma ConfirmedLeaves(s: Poller, password: Option<seq<byte>>, line: Line, n: nat, i: nat)
    requires s.Valid() && ConfirmsAt(line, n) && Accepted(Heard(line, n)) && i < |s.entries| && line.locks(i)
    ensures |Cycle(s, password, line).after.slots| == |s.entries|
    ensures CycleLeaves(s, password, line, i, line.arrivals(n + 1 + i), Cycle(s, password, line).after.slots[i])
  {
    hide Cycle, Heard, Accepted, ConfirmsAt, Associated, Stored;
    ConfirmedCycle(s, password, line, n);
    CycleStores(s, password, line);
  }

  /** UA, AARE and answers as frames of the meter, on their way in the waits in which they are expected. */
  datatype Meter = Meter(attempts: nat, ua: Delivery, parameters: seq<byte>, aare: Delivery, length: byte,
                         result: seq<Association.Tlv>, answers: seq<Delivery>, values: seq<Tree>) {
    function Aare(): seq<byte> { [0x61, length] + Association.EncodeAll(result) }

    /** At the last of some attempts it confirms, with parameters or without, and then it accepts the association. */
    ghost predicate Opens(line: Line) {
      1 <= attempts <= 3
      && (forall k: nat :: k < attempts - 1 ==> !UaAt(line, k) && !Says(Heard(line, k), 0x1F))
      && (ua.control == 0x73 || ua.control == 0x63) && ua.Carries(line.arrivals(attempts - 1), parameters)
      && aare.Brings(line.arrivals(attempts), Aare())
      && Association.FirstResult(result) == Some(0) && (forall k :: 0 <= k < |result| ==> |result[k].value| < 0x100)
    }

    /** The i-th answer arrives `lag` reads late, and the lock is obtained then. */
    predicate Answers(line: Line, i: nat, lag: nat)
      requires i < |answers| == |values|
    {
      Axdr.Valid(values[i]) && line.locks(i + lag)
      && answers[i].Brings(line.arrivals(attempts + 1 + i + lag), Response(values[i]))
    }

    /** Every read is answered in time. */
    ghost predicate Plays(line: Line, entries: seq<Entry>) {
      Opens(line) && |values| == |answers| == |entries| && forall i: nat :: i < |entries| ==> Answers(line, i, 0)
    }

    /** The first wait brings nothing, and every answer comes one wait late. */
    ghost predicate PlaysLate(line: Line, entries: seq<Entry>) {
      Opens(line) && |values| == |answers| == |entries| && Heard(line, attempts + 1).None?
      && forall i: nat :: i + 1 < |entries| ==> Answers(line, i, 1)
    }
  }

  lemma UaConfirms(d: Delivery, chunks: seq<seq<byte>>, parameters: seq<byte>)
    requires (d.control == 0x73 || d.control == 0x63) && d.Carries(chunks, parameters)
    ensures Confirms(Wait([], chunks))
  {
    hide Wait, Wire, FrameFinder.NoFlag, StripLlc, Concat, WellAddressed, Confirms, Refuses;
    DecidedBy(Wait([], chunks));
    BuiltFrameArrives(chunks, d.noise, d.rest, d.addresses, d.control, parameters);
  }

  lemma AareAccepts(m: Meter, chunks: seq<seq<byte>>)
    requires m.aare.Brings(chunks, m.Aare()) && Association.FirstResult(m.result) == Some(0)
    requires forall k :: 0 <= k < |m.result| ==> |m.result[k].value| < 0x100
    ensures Accepted(Wait([], chunks))
  {
    hide Wait, Delivery.Brings, Association.AareAccepted, Association.FirstResult;
    assert !HasLlc(m.Aare());
    BringsApdu(m.aare, chunks, m.Aare());
    Association.AcceptedIffFirstResultZero(m.length, m.result);
  }

  lemma OpensUp(line: Line, m: Meter)
    requires m.Opens(line)
    ensures ConfirmsAt(line, m.attempts) && Accepted(Heard(line, m.attempts))
  {
    hide Wait, Accepted, Confirms, Refuses, Association.FirstResult, Delivery.Brings, Delivery.Carries, Says;
    forall k: nat | k < m.attempts - 1 ensures Undecided(Heard(line, k)) {
      assert !UaAt(line, k);
      DecidedBy(Heard(line, k));
    }
    UaConfirms(m.ua, line.arrivals(m.attempts - 1), m.parameters);
    AareAccepts(m, line.arrivals(m.attempts));
  }

  /** An answer ends up in the slot of the read during whose wait it arrives. */
  lemma AnswerLands(s: Poller, password: Option<seq<byte>>, line: Line, m: Meter, i: nat, lag: nat)
    requires s.Valid() && m.Opens(line) && i < |m.answers| == |m.values| && i + lag < |s.entries|
      && m.Answers(line, i, lag)
    ensures var slots := Cycle(s, password, line).after.slots;
      |slots| == |s.entries| && slots[i + lag] == Holding(s.entries[i + lag], m.values[i])
  {
    hide Cycle, Heard, Accepted, ConfirmsAt, Delivery.Brings, Response, Holding, CycleLeaves, Axdr.Valid, Meter.Opens;
    OpensUp(line, m);
    var at := i + lag;
    ConfirmedLeaves(s, password, line, m.attempts, at);
    var chunks := line.arrivals(m.attempts + 1 + at);
    PolledValueArrives(s, password, line, at, chunks, Cycle(s, password, line).after.slots[at], m.answers[i],
      m.values[i]);
  }

  /** A meter that plays its part is read completely: the cycle counts as completed, and every slot holds the
      value the meter encoded for its entry, marked valid. */
  lemma WellBehavedMeterIsRead(s: Poller, password: Option<seq<byte>>, line: Line, m: Meter)
    requires s.Valid() && m.Plays(line, s.entries)
    ensures var after := Cycle(s, password, line).after;
      after.polls == Bump(s.polls) && after.errors == s.errors && |after.slots| == |s.entries|
      && forall i: nat :: i < |s.entries| ==> after.slots[i] == Holding(s.entries[i], m.values[i])
  {
    hide Cycle, Heard, Accepted, ConfirmsAt, Holding, Meter.Opens, Meter.Answers;
    OpensUp(line, m);
    ConfirmedCycle(s, password, line, m.attempts);
    CycleStores(s, password, line);
    forall i: nat | i < |s.entries|
      ensures Cycle(s, password, line).after.slots[i] == Holding(s.entries[i], m.values[i]) {
      AnswerLands(s, password, line, m, i, 0);
    }
  }

  lemma SilentSlot(s: Poller, password: Option<seq<byte>>, line: Line, n: nat)
    requires s.Valid() && ConfirmsAt(line, n) && Accepted(Heard(line, n)) && s.entries != []
    requires line.locks(0) && Heard(line, n + 1).None?
    ensures var slots := Cycle(s, password, line).after.slots; slots != [] && slots[0] == Unanswered(s.entries[0])
  {
    hide Cycle, Wait, Accepted, ConfirmsAt, CycleLeaves;
    ConfirmedLeaves(s, password, line, n, 0);
    LeavesAnswer(s, password, line, 0, line.arrivals(n + 1), Cycle(s, password, line).after.slots[0]);
  }

  /** Nothing in an answer says which read it answers, and its sequence numbers are not compared: when a meter is
      one answer late, the value of each entry ends up, marked valid, under the codes of the next one. */
  lemma LateMeterIsMisread(s: Poller, password: Option<seq<byte>>, line: Line, m: Meter)
    requires s.Valid() && m.PlaysLate(line, s.entries) && s.entries != [] && line.locks(0)
    ensures var slots := Cycle(s, password, line).after.slots;
      |slots| == |s.entries| && slots[0] == Unanswered(s.entries[0])
      && forall i: nat :: i + 1 < |s.entries| ==> slots[i + 1] == Holding(s.entries[i + 1], m.values[i])
  {
    hide Cycle, Heard, Accepted, ConfirmsAt, Holding, Unanswered, Meter.Opens, Meter.Answers;
    OpensUp(line, m);
    CycleStores(s, password, line);
    SilentSlot(s, password, line, m.attempts);
    forall i: nat | i + 1 < |s.entries|
      ensures Cycle(s, password, line).after.slots[i + 1] == Holding(s.entries[i + 1], m.values[i])
    {
      AnswerLands(s, password, line, m, i, 1);
    }
  }
}
