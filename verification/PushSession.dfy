/** The definition/value machine of `e450_push_task`. A push lists the OBIS codes it is going to report and
    then, possibly frames later, the values; which value belongs to which code is state kept across frames. */
module PushSession {
  import opened Bytes
  import opened Readings
  import opened Axdr
  import AxdrDecoder
  import Obis

  const MAX_DEFINITIONS := 30
  const DEFINITION_SIZE := 18

  /** `push_obis_list`, `push_obis_count` and `push_value_idx`. */
  datatype Session = Session(obisList: seq<seq<byte>>, valueIdx: nat)

  /** The first definition is the push setup itself and has no value, so values are counted from 1. */
  const INITIAL := Session([], 1)

  datatype Handled = Handled(session: Session, published: seq<Reading>)

  // ---------- Octets ----------

  predicate StartsLikeDefinition(b: seq<byte>) { |b| >= 3 && b[0] == 0x02 && b[1] == 0x04 && b[2] == 0x12 }

  predicate IsDefinition(b: seq<byte>) { |b| >= DEFINITION_SIZE && StartsLikeDefinition(b) }

  function DefinedObis(b: seq<byte>): (o: Option<seq<byte>>)
    requires |b| >= DEFINITION_SIZE
    ensures o.Some? ==> |o.value| == Obis.CODE_LEN
  {
    if b[5] == 0x09 && b[6] == 0x06 then Some(b[7..13]) else None
  }

  function OnDefinition(s: Session, obis: Option<seq<byte>>): Session {
    var s1 := if s.valueIdx > 1 then INITIAL else s;
    if obis.Some? && |s1.obisList| < MAX_DEFINITIONS then s1.(obisList := s1.obisList + [obis.value]) else s1
  }

  function Tag(t: Tree): byte {
    match t
    case Null => 0x00
    case Fixed(tag, _) => tag
    case Text(tag, _, _) => tag
    case Group(tag, _, _) => tag
  }

  /** The reading published for a value: its `valid` flag stays cleared. */
  function ReadingFor(obis: seq<byte>, t: Tree): Reading {
    Reading(obis, Obis.Text(obis), Tag(t), AxdrDecoder.Store(t, IntVal(0)), false)
  }

  function OnValue(s: Session, t: Tree): Handled {
    Handled(s.(valueIdx := s.valueIdx + 1),
            if s.valueIdx < |s.obisList| then [ReadingFor(s.obisList[s.valueIdx], t)] else [])
  }

  function Then(first: seq<Reading>, rest: Handled): Handled { rest.(published := first + rest.published) }

  /** The loop over the records of one frame; a value that does not parse ends it. */
  function Loop(s: Session, bytes: seq<byte>): Handled
    decreases |bytes|
  {
    if bytes == [] then Handled(s, [])
    else if IsDefinition(bytes) then Loop(OnDefinition(s, DefinedObis(bytes)), bytes[DEFINITION_SIZE..])
    else
      match ParseValue(bytes)
      case Bad(_, _) => Handled(s, [])
      case Good(t, used, _, _) =>
        var h := OnValue(s, t);
        Then(h.published, Loop(h.session, bytes[used..]))
  }

  /** What is left after the headers of a data notification and of the definition array. */
  function StripHeaders(body: seq<byte>): seq<byte> {
    var b := if |body| > 18 && body[0] == 0x0F then body[18..] else body;
    if |b| > 4 && b[0] == 0x02 && b[2] == 0x01 then b[4..] else b
  }

  /** The information field of one frame; the first four octets are a proprietary header. */
  function Handle(s: Session, info: seq<byte>): Handled {
    if |info| > 4 then Loop(s, StripHeaders(info[4..])) else Handled(s, [])
  }

  function HandleAll(s: Session, infos: seq<seq<byte>>): Handled
    decreases |infos|
  {
    if infos == [] then Handled(s, [])
    else var h := Handle(s, infos[0]); Then(h.published, HandleAll(h.session, infos[1..]))
  }

  // ---------- The machine in place ----------

  lemma DefinitionIsLong(b: seq<byte>)
    requires IsDefinition(b)
    ensures |b| >= DEFINITION_SIZE
  {
  }

  lemma ThenThen(a: seq<Reading>, b: seq<Reading>, h: Handled)
    ensures Then(a, Then(b, h)) == Then(a + b, h)
  {
    assert a + (b + h.published) == a + b + h.published;
  }

  lemma TagIsFirst(buf: seq<byte>)
    requires ParseValue(buf).Good?
    ensures buf != [] && Tag(ParseValue(buf).tree) == buf[0]
  {
    hide ParseLength, ParseItems;
  }

  class PushMachine {
    const obisList: array<seq<byte>>
    var obisCount: nat
    var valueIdx: nat

    constructor ()
      ensures Valid() && fresh(obisList) && State() == INITIAL
    {
      obisList := new seq<byte>[MAX_DEFINITIONS](_ => ZERO_OBIS);
      obisCount := 0;
      valueIdx := 1;
    }

    ghost predicate Valid()
      reads this
    {
      obisList.Length == MAX_DEFINITIONS && obisCount <= MAX_DEFINITIONS
    }

    ghost function State(): Session
      requires Valid()
      reads this, obisList
    {
      Session(obisList[..obisCount], valueIdx)
    }

    method Define(octets: seq<byte>)
      requires Valid() && |octets| >= DEFINITION_SIZE
      modifies this, obisList
      ensures Valid() && State() == OnDefinition(old(State()), DefinedObis(octets))
    {
      if valueIdx > 1 {
        obisCount := 0;
        valueIdx := 1;
      }
      if octets[5] == 0x09 && octets[6] == 0x06 {
        if obisCount < MAX_DEFINITIONS {
          obisList[obisCount] := octets[7..13];
          obisCount := obisCount + 1;
        }
      }
    }

    /** One value; gives back the octets used, or at most zero when it does not parse, and what is published. */
    method Measure(bytes: seq<byte>) returns (consumed: int, published: seq<Reading>)
      requires Valid() && bytes != []
      modifies this`valueIdx
      ensures Valid()
      ensures consumed > 0 <==> ParseValue(bytes).Good?
      ensures consumed > 0 ==> consumed == ParseValue(bytes).used
      ensures consumed > 0 ==> Handled(State(), published) == OnValue(old(State()), ParseValue(bytes).tree)
      ensures consumed <= 0 ==> published == [] && State() == old(State())
    {
      hide ParseValue, AxdrDecoder.Store;
      var rdg := new ReadingBuffer(CLEARED);
      published := [];
      if valueIdx < obisCount { rdg.obis := obisList[valueIdx]; }
      ghost var calls, depth;
      consumed, calls, depth := AxdrDecoder.ParseInto(bytes, rdg);
      if consumed <= 0 { return; }
      if valueIdx < obisCount {
        rdg.obisStr := Obis.Text(rdg.obis);
        published := [rdg.Snapshot()];
        TagIsFirst(bytes);
      }
      valueIdx := valueIdx + 1;
    }

    method HandleInfo(info: seq<byte>) returns (published: seq<Reading>)
      requires Valid()
      modifies this, obisList
      ensures Valid() && Handled(State(), published) == Handle(old(State()), info)
    {
      hide ParseValue, IsDefinition, OnDefinition, OnValue, DefinedObis;
      published := [];
      if |info| > 4 {
        var ptr := info[4..];
        if |ptr| > 18 && ptr[0] == 0x0F { ptr := ptr[18..]; }
        if |ptr| > 4 && ptr[0] == 0x02 && ptr[2] == 0x01 { ptr := ptr[4..]; }
        ghost var body := ptr;
        assert body == StripHeaders(info[4..]);
        hide StripHeaders;
        while |ptr| > 0
          invariant Valid()
          invariant Loop(old(State()), body) == Then(published, Loop(State(), ptr))
          decreases |ptr|
        {
          if IsDefinition(ptr) {
            DefinitionIsLong(ptr);
            Define(ptr);
            ptr := ptr[DEFINITION_SIZE..];
          } else {
            ghost var before := State();
            var consumed, pubs := Measure(ptr);
            if consumed <= 0 { break; }
            ghost var t := ParseValue(ptr).tree;
            ThenThen(published, pubs, Loop(State(), ptr[consumed..]));
            published := published + pubs;
            ptr := ptr[consumed..];
          }
        }
      }
    }
  }

  // ---------- Definitions ----------

  /** A definition of a register: a structure of four, its class, its code, and two more elements in five octets. */
  datatype Setup = Setup(x: byte, y: byte, code: seq<byte>, tail: seq<byte>) {
    predicate Valid() { |code| == 6 && |tail| == 5 }

    function Octets(): seq<byte> { [0x02, 0x04, 0x12, x, y, 0x09, 0x06] + code + tail }
  }

  /** The codes that a definition finds: none if there have been values since the last one. */
  function Listed(s: Session): seq<seq<byte>> { if s.valueIdx > 1 then [] else s.obisList }

  lemma SetupShape(d: Setup, rest: seq<byte>)
    requires d.Valid()
    ensures var b := d.Octets() + rest; IsDefinition(b) && DefinedObis(b) == Some(d.code) && b[18..] == rest
  {
    var b := d.Octets() + rest;
    assert b == [0x02, 0x04, 0x12, d.x, d.y, 0x09, 0x06] + (d.code + (d.tail + rest));
    assert b[7..13] == d.code;
  }

  /** Handling a definition adds its code, the six octets behind 09 06, to the list, as long as that has fewer than 30,
      and goes on behind its 18 octets. */
  lemma SetupStores(s: Session, d: Setup, rest: seq<byte>)
    requires d.Valid()
    ensures var listed, idx := Listed(s), if s.valueIdx > 1 then 1 else s.valueIdx;
      Loop(s, d.Octets() + rest)
        == Loop(Session(if |listed| < 30 then listed + [d.code] else listed, idx), rest)
  {
    hide IsDefinition, DefinedObis, ParseValue, Setup.Octets;
    SetupShape(d, rest);
    DefinitionIsLong(d.Octets() + rest);
  }

  lemma OtherShape(b: seq<byte>, rest: seq<byte>)
    requires |b| == 18 && b[..3] == [0x02, 0x04, 0x12] && b[5..7] != [0x09, 0x06]
    ensures IsDefinition(b + rest) && DefinedObis(b + rest) == None && (b + rest)[18..] == rest
  {
    assert b[..3][0] == b[0] && b[..3][1] == b[1] && b[..3][2] == b[2];
    assert b[5..7] == [b[5], b[6]];
  }

  /** A definition with anything else in the place of 09 06 adds nothing. */
  lemma OtherDefinitionStoresNothing(s: Session, b: seq<byte>, rest: seq<byte>)
    requires |b| == 18 && b[..3] == [0x02, 0x04, 0x12] && b[5..7] != [0x09, 0x06]
    ensures Loop(s, b + rest) == Loop(Session(Listed(s), if s.valueIdx > 1 then 1 else s.valueIdx), rest)
  {
    hide IsDefinition, DefinedObis, ParseValue;
    OtherShape(b, rest);
    DefinitionIsLong(b + rest);
  }

  // ---------- Records ----------

  datatype Record = Definition(octets: seq<byte>) | Measured(tree: Tree)

  /** Definitions are 18 octets of the expected shape; values are valid and not shaped like a definition. */
  predicate WellFormed(r: Record) {
    match r
    case Definition(octets) => |octets| == DEFINITION_SIZE && IsDefinition(octets)
    case Measured(t) => Valid(t) && !StartsLikeDefinition(Encode(t))
  }

  predicate AllWellFormed(rs: seq<Record>) { forall k :: 0 <= k < |rs| ==> WellFormed(rs[k]) }

  function EncodeRecord(r: Record): seq<byte> {
    match r
    case Definition(octets) => octets
    case Measured(t) => Encode(t)
  }

  function EncodeRecords(rs: seq<Record>): seq<byte> {
    if rs == [] then [] else EncodeRecord(rs[0]) + EncodeRecords(rs[1..])
  }

  function RecordObis(r: Record): (o: Option<seq<byte>>)
    requires r.Definition?
  {
    if |r.octets| >= DEFINITION_SIZE then DefinedObis(r.octets) else None
  }

  function OnRecord(s: Session, r: Record): Handled {
    match r
    case Definition(_) => Handled(OnDefinition(s, RecordObis(r)), [])
    case Measured(t) => OnValue(s, t)
  }

  function Fold(s: Session, rs: seq<Record>): Handled
    decreases |rs|
  {
    if rs == [] then Handled(s, [])
    else var h := OnRecord(s, rs[0]); Then(h.published, Fold(h.session, rs[1..]))
  }

  lemma {:induction false} EncodeAllSize(ts: seq<Tree>)
    ensures |EncodeAll(ts)| >= |ts|
    decreases |ts|
  {
    if ts != [] { EncodeAllSize(ts[1..]); }
  }

  lemma KindOfTwo()
    ensures KindOf(0x02) == Elements && KindOf(0x00) == NoContent
  {
  }

  lemma FourElements(n: nat)
    requires n < 0x80 && Low8(n) == 0x04
    ensures n == 4
  {
    assert Val(0x04) == 4;
  }

  /** Whether a value looks like a definition does not depend on what follows it. */
  lemma NotMistaken(t: Tree, rest: seq<byte>)
    requires Valid(t) && !StartsLikeDefinition(Encode(t))
    ensures !StartsLikeDefinition(Encode(t) + rest)
  {
    hide KindOf, Low8;
    KindOfTwo();
    var e := Encode(t);
    assert forall i :: 0 <= i < |e| ==> (e + rest)[i] == e[i];
    if |e| < 3 && StartsLikeDefinition(e + rest) {
      assert e[0] == 0x02;
      assert t.Group?;
      var l := LengthOctets(t.form, |t.items|);
      EncodeAllSize(t.items);
      assert |e| == 1 + |l| + |EncodeAll(t.items)|;
      assert t.form == Short && e[1] == Low8(|t.items|);
      assert (e + rest)[1] == 0x04;
      FourElements(|t.items|);
    }
  }

  lemma SamePrefix(octets: seq<byte>, more: seq<byte>)
    requires |octets| == DEFINITION_SIZE && IsDefinition(octets)
    ensures IsDefinition(octets + more) && DefinedObis(octets + more) == DefinedObis(octets)
  {
    assert (octets + more)[7..13] == octets[7..13];
  }

  /** On the octets of well-formed records the loop does what the records say, one after the other. */
  lemma {:induction false} LoopIsFold(s: Session, rs: seq<Record>)
    requires AllWellFormed(rs)
    ensures Loop(s, EncodeRecords(rs)) == Fold(s, rs)
    decreases |rs|
  {
    hide ParseValue, Encode, Valid, OnDefinition, OnValue, StartsLikeDefinition, DefinedObis;
    if rs != [] {
      assert WellFormed(rs[0]);
      var e, more := EncodeRecord(rs[0]), EncodeRecords(rs[1..]);
      var bytes := e + more;
      LoopIsFold(OnRecord(s, rs[0]).session, rs[1..]);
      match rs[0]
      case Definition(octets) =>
        SamePrefix(octets, more);
        assert bytes[DEFINITION_SIZE..] == more;
        var h := Fold(OnRecord(s, rs[0]).session, rs[1..]);
        assert [] + h.published == h.published;
      case Measured(t) =>
        NotMistaken(t, more);
        ParseComplete(t, more);
        assert bytes[|e|..] == more;
    }
  }

  lemma {:induction false} FoldConcat(s: Session, a: seq<Record>, b: seq<Record>)
    ensures var h := Fold(s, a); Fold(s, a + b) == Then(h.published, Fold(h.session, b))
    decreases |a|
  {
    if a == [] {
      assert a + b == b;
      assert [] + Fold(s, b).published == Fold(s, b).published;
    } else {
      assert (a + b)[0] == a[0] && (a + b)[1..] == a[1..] + b;
      var h := OnRecord(s, a[0]);
      FoldConcat(h.session, a[1..], b);
      var g := Fold(h.session, a[1..]);
      ThenThen(h.published, g.published, Fold(g.session, b));
    }
  }

  // ---------- Frame boundaries ----------

  /** A frame that carries these records behind whatever headers the code strips. */
  predicate Carries(info: seq<byte>, rs: seq<Record>) {
    AllWellFormed(rs) && if |info| > 4 then StripHeaders(info[4..]) == EncodeRecords(rs) else rs == []
  }

  predicate AllCarry(infos: seq<seq<byte>>, batches: seq<seq<Record>>) {
    |infos| == |batches| && forall k :: 0 <= k < |infos| ==> Carries(infos[k], batches[k])
  }

  /** Where the frame boundaries fall between the records makes no difference. */
  lemma {:induction false} BoundariesDoNotMatter(s: Session, infos: seq<seq<byte>>, batches: seq<seq<Record>>)
    requires AllCarry(infos, batches)
    ensures HandleAll(s, infos) == Fold(s, Concat(batches))
    decreases |infos|
  {
    hide Loop, StripHeaders;
    if infos != [] {
      assert Carries(infos[0], batches[0]);
      LoopIsFold(s, batches[0]);
      var h := Handle(s, infos[0]);
      BoundariesDoNotMatter(h.session, infos[1..], batches[1..]);
      FoldConcat(s, batches[0], Concat(batches[1..]));
    }
  }

  lemma SomethingEncoded(r: Record)
    requires WellFormed(r)
    ensures EncodeRecord(r) != []
  {
    hide Encode, IsDefinition;
  }

  /** The first frame of a push carries the records behind its headers: a data notification or none, and the head
      of the definition array. */
  lemma HeadersStripped(header: seq<byte>, notification: seq<byte>, x: byte, y: byte, rs: seq<Record>)
    requires |header| == 4 && AllWellFormed(rs) && rs != []
    requires notification == [] || (|notification| == 18 && notification[0] == 0x0F)
    ensures Carries(header + (notification + ([0x02, x, 0x01, y] + EncodeRecords(rs))), rs)
  {
    var records := EncodeRecords(rs);
    assert WellFormed(rs[0]);
    assert records != [] by { SomethingEncoded(rs[0]); }
    hide EncodeRecords, AllWellFormed;
    var rest := [0x02, x, 0x01, y] + records;
    assert rest[4..] == records;
    var body := notification + rest;
    assert (header + body)[4..] == body;
    if notification == [] { assert body == rest; } else { assert body[18..] == rest; }
  }

  // ---------- Frames that carry no headers ----------

  /** The first octet of a record. */
  function FirstOctet(r: Record): byte {
    match r
    case Definition(_) => 0x02
    case Measured(t) => Tag(t)
  }

  lemma {:induction false} EncodeRecordsConcat(a: seq<Record>, b: seq<Record>)
    ensures EncodeRecords(a + b) == EncodeRecords(a) + EncodeRecords(b)
    decreases |a|
  {
    if a == [] {
      assert a + b == b;
    } else {
      assert (a + b)[0] == a[0] && (a + b)[1..] == a[1..] + b;
      EncodeRecordsConcat(a[1..], b);
    }
  }

  /** An 8-bit integer value. */
  predicate IsInteger(r: Record) { r.Measured? && r.tree.Fixed? && r.tree.tag == 0x0F && |r.tree.payload| == 1 }

  predicate AllIntegers(rs: seq<Record>) { forall k :: 0 <= k < |rs| ==> IsInteger(rs[k]) }

  lemma {:induction false} IntegersEncoded(rs: seq<Record>)
    requires AllIntegers(rs)
    ensures AllWellFormed(rs) && |EncodeRecords(rs)| == 2 * |rs| && (rs != [] ==> EncodeRecords(rs)[0] == 0x0F)
    decreases |rs|
  {
    if rs != [] {
      assert IsInteger(rs[0]);
      assert EncodeRecord(rs[0]) == [0x0F] + rs[0].tree.payload;
      IntegersEncoded(rs[1..]);
      assert WellFormed(rs[0]);
      assert forall k :: 1 <= k < |rs| ==> rs[k] == rs[1..][k - 1];
    }
  }

  /** Records that the first header test takes for a data notification: an 8-bit integer and enough after it. */
  predicate LooksLikeNotification(rs: seq<Record>) {
    rs != [] && IsInteger(rs[0]) && |EncodeRecords(rs)| > 18
  }

  /** Records that the second header test takes for the head of a definition array: a structure, and where the
      third octet falls, an array, or a count with that octet 1. */
  predicate LooksLikeArrayHead(rs: seq<Record>) {
    rs != [] && |EncodeRecords(rs)| > 4 && rs[0].Measured? && rs[0].tree.Group? && rs[0].tree.tag == 0x02
    && var items := rs[0].tree.items;
       match rs[0].tree.form
       case Short => if items != [] then Tag(items[0]) == 0x01 else |rs| >= 2 && FirstOctet(rs[1]) == 0x01
       case Long1 => |items| == 1
       case Long2 => 256 <= |items| < 512
  }

  lemma TagFirst(t: Tree)
    ensures Encode(t)[0] == Tag(t)
  {
    hide EncodeAll, LengthOctets;
  }

  lemma RecordFirst(r: Record)
    requires WellFormed(r)
    ensures EncodeRecord(r) != [] && EncodeRecord(r)[0] == FirstOctet(r)
  {
    hide Encode, Tag;
    if r.Measured? { TagFirst(r.tree); }
  }

  lemma OneOctetInteger(t: Tree)
    requires Valid(t)
    ensures Tag(t) == 0x0F <==> t.Fixed? && t.tag == 0x0F && |t.payload| == 1
  {
    hide AllValid, LengthForm.Fits;
  }

  lemma FirstTest(rs: seq<Record>)
    requires AllWellFormed(rs) && rs != []
    ensures EncodeRecords(rs) != [] && (EncodeRecords(rs)[0] == 0x0F <==> IsInteger(rs[0]))
  {
    hide Encode, Valid, Tag, KindOf;
    assert WellFormed(rs[0]);
    RecordFirst(rs[0]);
    if rs[0].Measured? { OneOctetInteger(rs[0].tree); }
  }

  lemma GroupEncoded(form: LengthForm, items: seq<Tree>)
    ensures Encode(Group(0x02, form, items)) == [0x02] + (LengthOctets(form, |items|) + EncodeAll(items))
  {
  }

  lemma ValOne()
    ensures Val(0x01) == 1
  {
  }

  lemma IsOne(n: nat)
    requires n < 0x100
    ensures Low8(n) == 0x01 <==> n == 1
  {
    hide Low8, Val;
    ValOne();
    if n == 1 { ValInjective(Low8(1), 0x01); }
  }

  lemma GroupHead(form: LengthForm, items: seq<Tree>, more: seq<byte>)
    requires form.Fits(|items|)
    ensures var body := Encode(Group(0x02, form, items)) + more;
      |body| >= 3 ==>
        (body[2] == 0x01 <==>
          match form
          case Short => if items != [] then Tag(items[0]) == 0x01 else more != [] && more[0] == 0x01
          case Long1 => |items| == 1
          case Long2 => 256 <= |items| < 512)
  {
    hide Encode, Low8, Tag;
    var rest := EncodeAll(items);
    var l := LengthOctets(form, |items|);
    assert Encode(Group(0x02, form, items)) == [0x02] + (l + rest) by { GroupEncoded(form, items); }
    match form
    case Short =>
      if items != [] { TagFirst(items[0]); }
    case Long1 => IsOne(|items|);
    case Long2 => IsOne(|items| / 256);
  }

  lemma DefinitionThird(octets: seq<byte>)
    requires IsDefinition(octets)
    ensures |octets| >= 3 && octets[2] == 0x12
  {
  }

  lemma StructureIsGroup(t: Tree)
    requires Valid(t) && Tag(t) == 0x02
    ensures t.Group? && t.tag == 0x02 && t.form.Fits(|t.items|)
  {
    hide AllValid;
  }

  lemma NotStructure(t: Tree)
    requires Tag(t) != 0x02
    ensures t.Group? ==> t.tag != 0x02
  {
  }

  lemma SecondTest(rs: seq<Record>)
    requires AllWellFormed(rs) && rs != []
    ensures var body := EncodeRecords(rs); |body| > 4 && body[0] == 0x02 && body[2] == 0x01 <==> LooksLikeArrayHead(rs)
  {
    hide Encode, Valid, Tag, IsDefinition;
    assert WellFormed(rs[0]);
    RecordFirst(rs[0]);
    var e, more := EncodeRecord(rs[0]), EncodeRecords(rs[1..]);
    match rs[0]
    case Definition(octets) => DefinitionThird(octets);
    case Measured(t) =>
      if Tag(t) == 0x02 {
        StructureIsGroup(t);
        GroupHead(t.form, t.items, more);
        if |rs| >= 2 {
          assert WellFormed(rs[1]);
          RecordFirst(rs[1]);
          assert more == EncodeRecord(rs[1]) + EncodeRecords(rs[1..][1..]);
        }
      } else {
        NotStructure(t);
      }
  }

  lemma NoRecords()
    ensures EncodeRecords([]) == [] && !LooksLikeArrayHead([])
  {
  }

  /** A frame that carries records and no headers keeps all of them exactly when they look neither like a data
      notification nor like the head of a definition array. */
  lemma HeaderlessIntactIff(header: seq<byte>, rs: seq<Record>)
    requires |header| == 4 && AllWellFormed(rs)
    ensures Carries(header + EncodeRecords(rs), rs) <==> !LooksLikeNotification(rs) && !LooksLikeArrayHead(rs)
  {
    hide LooksLikeArrayHead, IsInteger, EncodeRecord;
    var body := EncodeRecords(rs);
    assert (header + body)[4..] == body;
    if rs != [] {
      FirstTest(rs);
      SecondTest(rs);
    } else {
      assert body == [] && !LooksLikeArrayHead(rs) by { NoRecords(); }
    }
  }

  /** The first header test does fire on values: a continuation frame that starts with ten or more 8-bit
      integers is taken for a data notification, and its first nine values are dropped, so that the tenth is
      published with the code of the first. */
  lemma IntegersTakenForNotification(s: Session, header: seq<byte>, rs: seq<Record>)
    requires |header| == 4 && AllIntegers(rs) && |rs| >= 10
    ensures Handle(s, header + EncodeRecords(rs)) == Fold(s, rs[9..])
  {
    hide Loop, Fold;
    var body := EncodeRecords(rs);
    assert rs == rs[..9] + rs[9..];
    EncodeRecordsConcat(rs[..9], rs[9..]);
    IntegersEncoded(rs[..9]);
    IntegersEncoded(rs[9..]);
    assert (header + body)[4..] == body;
    assert body[18..] == EncodeRecords(rs[9..]);
    LoopIsFold(s, rs[9..]);
  }

  function MeasuredAll(ts: seq<Tree>): (rs: seq<Record>)
    ensures |rs| == |ts|
  {
    if ts == [] then [] else [Measured(ts[0])] + MeasuredAll(ts[1..])
  }

  lemma {:induction false} MeasuredAllEncoded(ts: seq<Tree>)
    ensures EncodeRecords(MeasuredAll(ts)) == EncodeAll(ts)
    decreases |ts|
  {
    if ts != [] {
      assert MeasuredAll(ts)[1..] == MeasuredAll(ts[1..]);
      MeasuredAllEncoded(ts[1..]);
    }
  }

  lemma JoinHead<T>(tag: T, n: T, s: seq<T>)
    ensures [tag] + ([n] + s) == [tag, n] + s
  {
  }

  lemma ShortGroupEncoded(tag: byte, items: seq<Tree>)
    ensures Encode(Group(tag, Short, items)) == [tag, Low8(|items|)] + EncodeAll(items)
  {
    hide Low8;
    JoinHead(tag, Low8(|items|), EncodeAll(items));
  }

  lemma JoinHeads<T>(a: T, b: T, c: T, d: T, s: seq<T>, tail: seq<T>)
    ensures [a, b] + ([c, d] + s) + tail == [a, b, c, d] + (s + tail)
  {
  }

  lemma OneEncoded(t: Tree)
    ensures EncodeAll([t]) == Encode(t)
  {
    hide Encode;
    assert [t][1..] == [];
    assert Encode(t) + [] == Encode(t);
  }

  lemma StructureHead(items: seq<Tree>, tail: seq<byte>)
    ensures Encode(Group(0x02, Short, [Group(0x01, Short, items)])) + tail
         == [0x02, 0x01, 0x01, Low8(|items|)] + (EncodeAll(items) + tail)
  {
    hide Low8, Encode, EncodeAll;
    var inner := Group(0x01, Short, items);
    IsOne(1);
    ShortGroupEncoded(0x02, [inner]);
    OneEncoded(inner);
    ShortGroupEncoded(0x01, items);
    JoinHeads(0x02, 0x01, 0x01, Low8(|items|), EncodeAll(items), tail);
  }

  lemma HeadStripped(n: byte, more: seq<byte>)
    requires more != []
    ensures StripHeaders([0x02, 0x01, 0x01, n] + more) == more
  {
    assert ([0x02, 0x01, 0x01, n] + more)[4..] == more;
  }

  /** The second header test fires on values too: a continuation frame that starts with a structure of one array
      has the heads of both dropped, so that every element of the array is counted as a value of its own and
      all that follows is published with the codes of later values. */
  lemma StructureTakenForArrayHead(s: Session, header: seq<byte>, items: seq<Tree>, rest: seq<Record>)
    requires |header| == 4 && items != [] && |items| < 0x80 && AllWellFormed(MeasuredAll(items) + rest)
    ensures var value := Measured(Group(0x02, Short, [Group(0x01, Short, items)]));
      Handle(s, header + EncodeRecords([value] + rest)) == Fold(s, MeasuredAll(items) + rest)
  {
    hide Loop, Fold, Encode, EncodeAll, StripHeaders, AllWellFormed;
    var value := Measured(Group(0x02, Short, [Group(0x01, Short, items)]));
    var more := EncodeAll(items) + EncodeRecords(rest);
    var body := EncodeRecords([value] + rest);
    assert ([value] + rest)[1..] == rest;
    StructureHead(items, EncodeRecords(rest));
    assert body == [0x02, 0x01, 0x01, Low8(|items|)] + more;
    EncodeAllSize(items);
    HeadStripped(Low8(|items|), more);
    MeasuredAllEncoded(items);
    EncodeRecordsConcat(MeasuredAll(items), rest);
    assert (header + body)[4..] == body;
    LoopIsFold(s, MeasuredAll(items) + rest);
  }

  // ---------- Pairing ----------

  /** The values since the last definition. */
  function ValuesSince(rs: seq<Record>): nat {
    if rs == [] || rs[|rs| - 1].Definition? then 0 else 1 + ValuesSince(rs[..|rs| - 1])
  }

  /** The codes of the definitions that end the sequence without a value between them. */
  function TrailingCodes(rs: seq<Record>): seq<seq<byte>> {
    if rs == [] || rs[|rs| - 1].Measured? then []
    else
      var o := RecordObis(rs[|rs| - 1]);
      TrailingCodes(rs[..|rs| - 1]) + (if o.Some? then [o.value] else [])
  }

  /** The codes of the latest uninterrupted run of definitions. */
  function LatestCodes(rs: seq<Record>): seq<seq<byte>> {
    if rs != [] && rs[|rs| - 1].Measured? then LatestCodes(rs[..|rs| - 1]) else TrailingCodes(rs)
  }

  function Stored(codes: seq<seq<byte>>): (s: seq<seq<byte>>)
    ensures |s| <= MAX_DEFINITIONS
  {
    codes[..Min(|codes|, MAX_DEFINITIONS)]
  }

  /** What must be published for a value that comes after `before`: the i-th value after a run of definitions,
      counting from one, belongs to code i of that run, counting from zero, if the run has one that is stored. */
  function Owed(before: seq<Record>, t: Tree): seq<Reading> {
    var codes, i := Stored(LatestCodes(before)), ValuesSince(before) + 1;
    if i < |codes| then [ReadingFor(codes[i], t)] else []
  }

  function AllOwed(rs: seq<Record>): seq<Reading> {
    if rs == [] then []
    else
      var before, last := rs[..|rs| - 1], rs[|rs| - 1];
      AllOwed(before) + (if last.Measured? then Owed(before, last.tree) else [])
  }

  lemma StoredAppend(codes: seq<seq<byte>>, c: seq<byte>)
    ensures Stored(codes + [c]) == if |codes| < MAX_DEFINITIONS then Stored(codes) + [c] else Stored(codes)
  {
  }

  lemma LatestAtDefinition(before: seq<Record>)
    ensures ValuesSince(before) > 0 ==> TrailingCodes(before) == []
    ensures ValuesSince(before) == 0 ==> LatestCodes(before) == TrailingCodes(before)
  {
  }

  /** For every sequence of records the machine publishes exactly what is owed: no value is ever paired with a
      code of an earlier run of definitions, and none is shifted. */
  lemma {:induction false} EveryRunPairsCorrectly(rs: seq<Record>)
    ensures var h := Fold(INITIAL, rs);
      && h.published == AllOwed(rs)
      && h.session == Session(Stored(LatestCodes(rs)), 1 + ValuesSince(rs))
    decreases |rs|
  {
    hide ReadingFor, DefinedObis, RecordObis;
    if rs != [] {
      var before, last := rs[..|rs| - 1], rs[|rs| - 1];
      assert rs == before + [last];
      EveryRunPairsCorrectly(before);
      FoldConcat(INITIAL, before, [last]);
      var s := Fold(INITIAL, before).session;
      assert [last][1..] == [];
      assert Fold(s, [last]) == Then(OnRecord(s, last).published, Handled(OnRecord(s, last).session, []));
      assert OnRecord(s, last).published + [] == OnRecord(s, last).published;
      if last.Definition? {
        LatestAtDefinition(before);
        var o := RecordObis(last);
        if o.Some? {
          StoredAppend(TrailingCodes(before), o.value);
        } else {
          assert TrailingCodes(before) + [] == TrailingCodes(before);
        }
      }
    }
  }

  // ---------- Push cycles ----------

  /** One push: definitions and then values. */
  datatype Cycle = Cycle(definitions: seq<Record>, values: seq<Record>) {
    predicate Proper() {
      && definitions != [] && (forall k :: 0 <= k < |definitions| ==> definitions[k].Definition?)
      && values != [] && (forall k :: 0 <= k < |values| ==> values[k].Measured?)
    }
  }

  function Codes(definitions: seq<Record>): seq<seq<byte>>
    requires forall k :: 0 <= k < |definitions| ==> definitions[k].Definition?
  {
    if definitions == [] then []
    else
      var o := RecordObis(definitions[0]);
      (if o.Some? then [o.value] else []) + Codes(definitions[1..])
  }

  /** Values paired with codes from index `i` on. */
  function Paired(codes: seq<seq<byte>>, i: nat, values: seq<Record>): seq<Reading>
    requires forall k :: 0 <= k < |values| ==> values[k].Measured?
    decreases |values|
  {
    if values == [] || i >= |codes| then []
    else [ReadingFor(codes[i], values[0].tree)] + Paired(codes, i + 1, values[1..])
  }

  function CyclePairs(c: Cycle): seq<Reading>
    requires c.Proper()
  {
    Paired(Stored(Codes(c.definitions)), 1, c.values)
  }

  function AllPairs(cs: seq<Cycle>): seq<Reading>
    requires forall k :: 0 <= k < |cs| ==> cs[k].Proper()
  {
    if cs == [] then [] else CyclePairs(cs[0]) + AllPairs(cs[1..])
  }

  function CycleRecords(cs: seq<Cycle>): seq<Record> {
    if cs == [] then [] else cs[0].definitions + cs[0].values + CycleRecords(cs[1..])
  }

  lemma {:induction false} FoldDefinitions(s: Session, ds: seq<Record>)
    requires forall k :: 0 <= k < |ds| ==> ds[k].Definition?
    requires s.valueIdx == 1 && |s.obisList| <= MAX_DEFINITIONS
    ensures Fold(s, ds) == Handled(Session(Stored(s.obisList + Codes(ds)), 1), [])
    decreases |ds|
  {
    hide DefinedObis, RecordObis;
    if ds == [] {
      assert s.obisList + [] == s.obisList && Stored(s.obisList) == s.obisList;
    } else {
      var h := OnRecord(s, ds[0]);
      FoldDefinitions(h.session, ds[1..]);
      var o := RecordObis(ds[0]);
      if o.Some? {
        assert s.obisList + ([o.value] + Codes(ds[1..])) == s.obisList + [o.value] + Codes(ds[1..]);
      } else {
        assert [] + Codes(ds[1..]) == Codes(ds[1..]);
      }
    }
  }

  lemma {:induction false} FoldValues(s: Session, vs: seq<Record>)
    requires forall k :: 0 <= k < |vs| ==> vs[k].Measured?
    ensures Fold(s, vs) == Handled(Session(s.obisList, s.valueIdx + |vs|), Paired(s.obisList, s.valueIdx, vs))
    decreases |vs|
  {
    hide ReadingFor;
    if vs != [] {
      FoldValues(OnRecord(s, vs[0]).session, vs[1..]);
    }
  }

  /** Between cycles: nothing stored yet, or values have been seen since. */
  predicate AtBoundary(s: Session) { s == INITIAL || s.valueIdx > 1 }

  lemma FoldCycle(s: Session, c: Cycle)
    requires c.Proper() && AtBoundary(s)
    ensures var h := Fold(s, c.definitions + c.values); AtBoundary(h.session) && h.published == CyclePairs(c)
  {
    hide DefinedObis, RecordObis, Paired;
    var ds := c.definitions;
    FoldConcat(s, ds, c.values);
    assert OnDefinition(s, RecordObis(ds[0])) == OnDefinition(INITIAL, RecordObis(ds[0]));
    assert Fold(s, ds) == Fold(INITIAL, ds);
    FoldDefinitions(INITIAL, ds);
    assert INITIAL.obisList + Codes(ds) == Codes(ds);
    var mid := Session(Stored(Codes(ds)), 1);
    FoldValues(mid, c.values);
    assert [] + Paired(mid.obisList, 1, c.values) == Paired(mid.obisList, 1, c.values);
  }

  /** Across any run of cycles, of definitions D0..Dn-1 followed by values V1..Vm, exactly the pairs (Di, Vi) for
      1 <= i < min(n, 30) and i <= m are published, cycle after cycle. */
  lemma {:induction false} CyclesPairCorrectly(s: Session, cs: seq<Cycle>)
    requires AtBoundary(s) && forall k :: 0 <= k < |cs| ==> cs[k].Proper()
    ensures Fold(s, CycleRecords(cs)).published == AllPairs(cs)
    decreases |cs|
  {
    hide CyclePairs;
    if cs != [] {
      var head := cs[0].definitions + cs[0].values;
      FoldCycle(s, cs[0]);
      FoldConcat(s, head, CycleRecords(cs[1..]));
      CyclesPairCorrectly(Fold(s, head).session, cs[1..]);
    }
  }

  /** The same through frames: wherever the records of the cycles are cut into frames. */
  lemma FramedCyclesPairCorrectly(infos: seq<seq<byte>>, batches: seq<seq<Record>>, cs: seq<Cycle>)
    requires AllCarry(infos, batches) && Concat(batches) == CycleRecords(cs)
    requires forall k :: 0 <= k < |cs| ==> cs[k].Proper()
    ensures HandleAll(INITIAL, infos).published == AllPairs(cs)
  {
    BoundariesDoNotMatter(INITIAL, infos, batches);
    CyclesPairCorrectly(INITIAL, cs);
  }

  // ---------- Cycles given by their codes ----------

  function DefinedAll(setups: seq<Setup>): (rs: seq<Record>)
    ensures |rs| == |setups|
  {
    if setups == [] then [] else [Definition(setups[0].Octets())] + DefinedAll(setups[1..])
  }

  /** The definitions and the values of one push. */
  datatype Report = Report(setups: seq<Setup>, values: seq<Tree>) {
    predicate Valid() { setups != [] && values != [] && forall k :: 0 <= k < |setups| ==> setups[k].Valid() }

    function ToCycle(): Cycle { Cycle(DefinedAll(setups), MeasuredAll(values)) }

    /** Value k, counting from 0, with the code of definition k + 1, while there are both and the code is one of the
        first 30. */
    function Pairs(): seq<Reading>
      requires Valid()
    {
      seq(Min(Min(|setups|, 30) - 1, |values|), k requires 0 <= k < Min(Min(|setups|, 30) - 1, |values|) =>
        var code := setups[k + 1].code;
        Reading(code, Obis.Text(code), Tag(values[k]), AxdrDecoder.Store(values[k], IntVal(0)), false))
    }
  }

  function CodesOf(setups: seq<Setup>): (codes: seq<seq<byte>>)
    ensures |codes| == |setups| && forall k :: 0 <= k < |codes| ==> codes[k] == setups[k].code
  {
    if setups == [] then [] else [setups[0].code] + CodesOf(setups[1..])
  }

  lemma {:induction false} DefinedCodes(setups: seq<Setup>)
    requires forall k :: 0 <= k < |setups| ==> setups[k].Valid()
    ensures var ds := DefinedAll(setups);
      (forall k :: 0 <= k < |ds| ==> ds[k].Definition?) && Codes(ds) == CodesOf(setups)
    decreases |setups|
  {
    hide DefinedObis, IsDefinition, Setup.Octets;
    if setups != [] {
      var d := setups[0];
      SetupShape(d, []);
      assert d.Octets() + [] == d.Octets();
      DefinitionIsLong(d.Octets());
      DefinedCodes(setups[1..]);
      assert DefinedAll(setups)[1..] == DefinedAll(setups[1..]);
    }
  }

  lemma {:induction false} PairedAt(codes: seq<seq<byte>>, i: nat, values: seq<Tree>)
    requires i <= |codes|
    ensures var rs := MeasuredAll(values);
      (forall k :: 0 <= k < |rs| ==> rs[k].Measured?)
      && var ps := Paired(codes, i, rs);
         |ps| == Min(|codes| - i, |values|)
         && forall k :: 0 <= k < |ps| ==> ps[k] == ReadingFor(codes[i + k], values[k])
    decreases |values|
  {
    hide ReadingFor;
    if values != [] {
      var rs := MeasuredAll(values);
      assert rs[1..] == MeasuredAll(values[1..]);
      if i < |codes| { PairedAt(codes, i + 1, values[1..]); } else { PairedAt(codes, i, values[1..]); }
    }
  }

  lemma ReportPairs(r: Report)
    requires r.Valid()
    ensures r.ToCycle().Proper() && CyclePairs(r.ToCycle()) == r.Pairs()
  {
    hide Obis.Text, AxdrDecoder.Store, Paired, Codes;
    DefinedCodes(r.setups);
    PairedAt(Stored(CodesOf(r.setups)), 1, r.values);
  }

  function CyclesOf(reports: seq<Report>): (cs: seq<Cycle>)
    ensures |cs| == |reports|
  {
    if reports == [] then [] else [reports[0].ToCycle()] + CyclesOf(reports[1..])
  }

  function ReportedPairs(reports: seq<Report>): seq<Reading>
    requires forall k :: 0 <= k < |reports| ==> reports[k].Valid()
  {
    if reports == [] then [] else reports[0].Pairs() + ReportedPairs(reports[1..])
  }

  lemma {:induction false} ReportsPairs(reports: seq<Report>)
    requires forall k :: 0 <= k < |reports| ==> reports[k].Valid()
    ensures var cs := CyclesOf(reports);
      (forall k :: 0 <= k < |cs| ==> cs[k].Proper()) && AllPairs(cs) == ReportedPairs(reports)
    decreases |reports|
  {
    hide CyclePairs, Report.ToCycle, Report.Pairs, Cycle.Proper;
    if reports != [] {
      ReportPairs(reports[0]);
      ReportsPairs(reports[1..]);
      assert CyclesOf(reports)[1..] == CyclesOf(reports[1..]);
    }
  }

  /** From codes to readings: of pushes that define codes, in the octets of a definition each, and then report values,
      wherever these are cut into frames, exactly the values with a code of their own are published, under it. */
  lemma ReportsArePublished(infos: seq<seq<byte>>, batches: seq<seq<Record>>, reports: seq<Report>)
    requires forall k :: 0 <= k < |reports| ==> reports[k].Valid()
    requires AllCarry(infos, batches) && Concat(batches) == CycleRecords(CyclesOf(reports))
    ensures HandleAll(INITIAL, infos).published == ReportedPairs(reports)
  {
    hide CycleRecords, HandleAll, AllCarry, CyclesOf;
    ReportsPairs(reports);
    FramedCyclesPairCorrectly(infos, batches, CyclesOf(reports));
  }
}
