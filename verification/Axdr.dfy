/** The values that `dlms_axdr.c` supports: their grammar, and the recursive parser over octets. */
module Axdr {
  import opened Bytes

  // ---------- Types and lengths ----------

  /** What follows a type tag. */
  datatype Kind = NoContent | FixedSize(size: nat) | LengthPrefixed | Elements | Unsupported

  function KindOf(tag: byte): Kind {
    match tag
    case 0x00 => NoContent
    case 0x03 => FixedSize(1)
    case 0x0F => FixedSize(1)
    case 0x10 => FixedSize(2)
    case 0x05 => FixedSize(4)
    case 0x14 => FixedSize(8)
    case 0x11 => FixedSize(1)
    case 0x16 => FixedSize(1)
    case 0x12 => FixedSize(2)
    case 0x06 => FixedSize(4)
    case 0x15 => FixedSize(8)
    case 0x17 => FixedSize(4)
    case 0x18 => FixedSize(8)
    case 0x09 => LengthPrefixed
    case 0x0A => LengthPrefixed
    case 0x0C => LengthPrefixed
    case 0x01 => Elements
    case 0x02 => Elements
    case _ => Unsupported
  }

  /** The length forms that are understood: the short form, and the long forms with one and two octets. */
  datatype LengthForm = Short | Long1 | Long2 {
    predicate Fits(n: nat) {
      match this
      case Short => n < 0x80
      case Long1 => n < 0x100
      case Long2 => n < 0x1_0000
    }

    function Size(): nat { match this case Short => 1 case Long1 => 2 case Long2 => 3 }
  }

  function LengthOctets(form: LengthForm, n: nat): (s: seq<byte>)
    ensures |s| == form.Size()
  {
    match form
    case Short => [Low8(n)]
    case Long1 => [0x81, Low8(n)]
    case Long2 => [0x82, Low8(n / 256), Low8(n)]
  }

  datatype Length = Length(form: LengthForm, value: nat)

  /** `axdr_parse_length` */
  function ParseLength(buf: seq<byte>): (r: Option<Length>)
    ensures r.Some? ==> r.value.form.Size() <= |buf| && r.value.value < 0x1_0000
  {
    if |buf| == 0 then None
    else if buf[0] < 0x80 then Some(Length(Short, Val(buf[0])))
    else if buf[0] == 0x81 then
      if |buf| < 2 then None else Some(Length(Long1, Val(buf[1])))
    else if buf[0] == 0x82 then
      if |buf| < 3 then None else Some(Length(Long2, Word(buf[1], buf[2])))
    else None
  }

  // ---------- The grammar ----------

  datatype Tree =
    | Null
    | Fixed(tag: byte, payload: seq<byte>)
    | Text(tag: byte, form: LengthForm, chars: seq<byte>)
    | Group(tag: byte, form: LengthForm, items: seq<Tree>)

  predicate Valid(t: Tree)
    decreases t, 0
  {
    match t
    case Null => true
    case Fixed(tag, payload) => KindOf(tag) == FixedSize(|payload|)
    case Text(tag, form, chars) => KindOf(tag) == LengthPrefixed && form.Fits(|chars|)
    case Group(tag, form, items) => KindOf(tag) == Elements && form.Fits(|items|) && AllValid(items)
  }

  predicate AllValid(ts: seq<Tree>)
    decreases ts, 1
  {
    ts == [] || (Valid(ts[0]) && AllValid(ts[1..]))
  }

  function Encode(t: Tree): (s: seq<byte>)
    ensures |s| >= 1
    decreases t, 0
  {
    match t
    case Null => [0x00]
    case Fixed(tag, payload) => [tag] + payload
    case Text(tag, form, chars) => [tag] + (LengthOctets(form, |chars|) + chars)
    case Group(tag, form, items) => [tag] + (LengthOctets(form, |items|) + EncodeAll(items))
  }

  function EncodeAll(ts: seq<Tree>): seq<byte>
    decreases ts, 1
  {
    if ts == [] then [] else Encode(ts[0]) + EncodeAll(ts[1..])
  }

  // ---------- The recursive parser ----------

  /** The outcome of a parse, with the number of calls it took and their greatest nesting. */
  datatype Parsed = Bad(calls: nat, depth: nat) | Good(tree: Tree, used: nat, calls: nat, depth: nat)
  datatype ParsedItems = BadItems(calls: nat, depth: nat) | GoodItems(items: seq<Tree>, used: nat, calls: nat,
    depth: nat)

  /** `axdr_parse_value`. On every input it makes at most one call for each octet and one more, nested at most
      one deeper than half the octets; a successful call uses at least one octet for each call. */
  function ParseValue(buf: seq<byte>): (r: Parsed)
    ensures r.Good? ==> 1 <= r.used <= |buf| && r.calls <= r.used
    ensures 1 <= r.calls <= |buf| + 1
    ensures 1 <= r.depth && 2 * r.depth <= |buf| + 2
    decreases |buf|, 0
  {
    if |buf| < 1 then Bad(1, 1)
    else
      var rest := buf[1..];
      match KindOf(buf[0])
      case NoContent => Good(Null, 1, 1, 1)
      case FixedSize(n) =>
        if |rest| < n then Bad(1, 1) else Good(Fixed(buf[0], rest[..n]), 1 + n, 1, 1)
      case LengthPrefixed =>
        (match ParseLength(rest)
         case None => Bad(1, 1)
         case Some(len) =>
           var k := len.form.Size();
           if |rest| < k + len.value then Bad(1, 1)
           else Good(Text(buf[0], len.form, rest[k..k + len.value]), 1 + k + len.value, 1, 1))
      case Elements =>
        (match ParseLength(rest)
         case None => Bad(1, 1)
         case Some(len) =>
           var k := len.form.Size();
           match ParseItems(rest[k..], len.value)
           case BadItems(calls, depth) => Bad(1 + calls, 1 + depth)
           case GoodItems(items, used, calls, depth) =>
             Good(Group(buf[0], len.form, items), 1 + k + used, 1 + calls, 1 + depth))
      case Unsupported => Bad(1, 1)
  }

  /** The loop over the elements of an array or structure. */
  function ParseItems(buf: seq<byte>, count: nat): (r: ParsedItems)
    ensures r.GoodItems? ==> r.used <= |buf| && r.calls <= r.used && |r.items| == count
    ensures r.calls <= |buf| + 1
    ensures 2 * r.depth <= |buf| + 2
    decreases |buf|, 1, count
  {
    if count == 0 then GoodItems([], 0, 0, 0)
    else
      match ParseValue(buf)
      case Bad(calls, depth) => BadItems(calls, depth)
      case Good(tree, used, calls, depth) =>
        match ParseItems(buf[used..], count - 1)
        case BadItems(calls', depth') => BadItems(calls + calls', Max(depth, depth'))
        case GoodItems(items, used', calls', depth') =>
          GoodItems([tree] + items, used + used', calls + calls', Max(depth, depth'))
  }

  // ---------- What the octets mean ----------

  /** The types that have `n` octets of content: boolean, integer, unsigned and enum one, long and long-unsigned two,
      double-long, double-long-unsigned and float32 four, long64, long64-unsigned and float64 eight. */
  predicate HasSize(tag: byte, n: nat) {
    match n
    case 1 => tag == 0x03 || tag == 0x0F || tag == 0x11 || tag == 0x16
    case 2 => tag == 0x10 || tag == 0x12
    case 4 => tag == 0x05 || tag == 0x06 || tag == 0x17
    case 8 => tag == 0x14 || tag == 0x15 || tag == 0x18
    case _ => false
  }

  lemma KindSize(tag: byte, n: nat)
    requires n == 1 || n == 2 || n == 4 || n == 8
    ensures HasSize(tag, n) <==> KindOf(tag) == FixedSize(n)
  {
  }

  lemma OtherKinds(tag: byte)
    ensures KindOf(tag) == NoContent <==> tag == 0x00
    ensures KindOf(tag) == LengthPrefixed <==> tag == 0x09 || tag == 0x0A || tag == 0x0C
    ensures KindOf(tag) == Elements <==> tag == 0x01 || tag == 0x02
    ensures KindOf(tag).FixedSize? ==> var n := KindOf(tag).size; n == 1 || n == 2 || n == 4 || n == 8
  {
  }

  lemma TagThen(tag: byte, data: seq<byte>)
    ensures ([tag] + data)[0] == tag && ([tag] + data)[1..] == data
  {
  }

  /** A value of a type with `n` octets of content takes exactly these. */
  lemma FixedParses(tag: byte, n: nat, data: seq<byte>)
    requires HasSize(tag, n)
    ensures var p := ParseValue([tag] + data);
      (p.Good? <==> |data| >= n) && (p.Good? ==> p.used == 1 + n && p.tree == Fixed(tag, data[..n]))
  {
    hide KindOf, ParseLength, ParseItems;
    KindSize(tag, n);
    TagThen(tag, data);
  }

  /** Null has no content, a string (octet, visible or UTF-8) is as long as its length says, an array or a structure
      has as many elements as its length says, and no other type is read. */
  lemma OthersParse(tag: byte, data: seq<byte>)
    requires forall n :: !HasSize(tag, n)
    ensures var p, l := ParseValue([tag] + data), ParseLength(data);
      if tag == 0x00 then p.Good? && p.used == 1 && p.tree == Null
      else if tag == 0x09 || tag == 0x0A || tag == 0x0C then
        (p.Good? <==> l.Some? && l.value.form.Size() + l.value.value <= |data|)
        && (p.Good? ==> var k := l.value.form.Size();
              p.used == 1 + k + l.value.value && p.tree == Text(tag, l.value.form, data[k..k + l.value.value]))
      else if tag == 0x01 || tag == 0x02 then
        (p.Good? <==> l.Some? && ParseItems(data[l.value.form.Size()..], l.value.value).GoodItems?)
        && (p.Good? ==> |p.tree.items| == l.value.value && p.tree == Group(tag, l.value.form, p.tree.items))
      else p.Bad?
  {
    hide KindOf, ParseLength, ParseItems;
    OtherKinds(tag);
    TagThen(tag, data);
    if KindOf(tag).FixedSize? { KindSize(tag, KindOf(tag).size); }
  }

  /** Lengths: up to 7F the octet itself, 81 with one octet, 82 with two, the upper one first, and nothing else. */
  lemma LengthOctetsMean(first: byte, data: seq<byte>)
    ensures ParseLength([]).None?
    ensures ParseLength([first] + data) ==
      if first < 0x80 then Some(Length(Short, Val(first)))
      else if first == 0x81 && |data| >= 1 then Some(Length(Long1, Val(data[0])))
      else if first == 0x82 && |data| >= 2 then Some(Length(Long2, 256 * Val(data[0]) + Val(data[1])))
      else None
  {
    hide Val;
    TagThen(first, data);
  }

  // ---------- Soundness and completeness ----------

  lemma Low8Octet(x: byte, n: nat)
    requires n % 256 == Val(x)
    ensures Low8(n) == x
  {
    hide Low8, Val;
    ValInjective(Low8(n), x);
  }

  lemma WordOfOctets(n: nat)
    requires n < 0x1_0000
    ensures Word(Low8(n / 256), Low8(n)) == n
  {
    hide Low8, Val;
  }

  lemma OctetsOfWord(hi: byte, lo: byte)
    ensures Low8(Word(hi, lo) / 256) == hi && Low8(Word(hi, lo)) == lo
  {
    hide Low8, Val;
    Low8Octet(hi, Word(hi, lo) / 256);
    Low8Octet(lo, Word(hi, lo));
  }

  lemma ShortLength(n: nat)
    requires n < 0x80
    ensures Low8(n) < 0x80 && Val(Low8(n)) == n
  {
    hide Low8, Val;
    ShortOctet(Low8(n));
  }

  lemma LengthSound(buf: seq<byte>)
    requires ParseLength(buf).Some?
    ensures var l := ParseLength(buf).value;
      l.form.Fits(l.value) && LengthOctets(l.form, l.value) == buf[..l.form.Size()]
  {
    hide Low8, Word, Val;
    var l := ParseLength(buf).value;
    match l.form
    case Short =>
      ShortOctet(buf[0]);
      Low8Octet(buf[0], l.value);
      assert buf[..1] == [buf[0]];
    case Long1 =>
      Low8Octet(buf[1], l.value);
      assert buf[..2] == [buf[0], buf[1]];
    case Long2 =>
      OctetsOfWord(buf[1], buf[2]);
      assert buf[..3] == [buf[0], buf[1], buf[2]];
  }

  lemma LengthComplete(form: LengthForm, n: nat, rest: seq<byte>)
    requires form.Fits(n)
    ensures ParseLength(LengthOctets(form, n) + rest) == Some(Length(form, n))
  {
    hide Low8, Word, Val;
    match form
    case Short => ShortLength(n);
    case Long1 => assert Val(Low8(n)) == n;
    case Long2 => WordOfOctets(n);
  }

  lemma TakeTake<T>(s: seq<T>, a: nat, b: nat)
    requires a <= b <= |s|
    ensures s[..a] + s[a..b] == s[..b]
    ensures s[a..][..b - a] == s[a..b]
  {
  }

  lemma TagOfNull(tag: byte)
    requires KindOf(tag) == NoContent
    ensures tag == 0x00
  {
  }

  /** Whatever is accepted is the encoding of a valid value tree, in some accepted length forms. */
  lemma {:induction false} ParseSound(buf: seq<byte>)
    requires ParseValue(buf).Good?
    ensures var r := ParseValue(buf); Valid(r.tree) && Encode(r.tree) == buf[..r.used]
    decreases |buf|, 0
  {
    hide LengthOctets, ParseLength, KindOf, ParseItems, EncodeAll, AllValid;
    var r := ParseValue(buf);
    var rest := buf[1..];
    assert buf[..1] == [buf[0]];
    match KindOf(buf[0])
    case NoContent => TagOfNull(buf[0]);
    case FixedSize(n) => TakeTake(buf, 1, 1 + n);
    case LengthPrefixed =>
      LengthSound(rest);
      var len := ParseLength(rest).value;
      var k := len.form.Size();
      TakeTake(rest, k, k + len.value);
      TakeTake(buf, 1, r.used);
    case Elements =>
      LengthSound(rest);
      var len := ParseLength(rest).value;
      var k := len.form.Size();
      ItemsSound(rest[k..], len.value);
      TakeTake(rest, k, r.used - 1);
      TakeTake(buf, 1, r.used);
  }

  lemma {:induction false} ItemsSound(buf: seq<byte>, count: nat)
    requires ParseItems(buf, count).GoodItems?
    ensures var r := ParseItems(buf, count); AllValid(r.items) && EncodeAll(r.items) == buf[..r.used]
    decreases |buf|, 1, count
  {
    hide ParseValue, Encode, Valid;
    if count > 0 {
      var p := ParseValue(buf);
      ParseSound(buf);
      ItemsSound(buf[p.used..], count - 1);
      var q := ParseItems(buf[p.used..], count - 1);
      TakeTake(buf, p.used, p.used + q.used);
      assert ([p.tree] + q.items)[1..] == q.items;
    }
  }

  lemma TailOf<T>(tag: T, l: seq<T>, c: seq<T>, rest: seq<T>)
    ensures var buf := [tag] + (l + c) + rest;
      buf[0] == tag && buf[1..] == l + (c + rest) && buf[1..][|l|..] == c + rest && buf[1..][|l|..|l| + |c|] == c
  {
  }

  /** Every encoding of a valid value tree is accepted, gives back that tree, and uses exactly the encoding,
      whatever follows it. */
  lemma {:induction false} ParseComplete(t: Tree, rest: seq<byte>)
    requires Valid(t)
    ensures var r := ParseValue(Encode(t) + rest); r.Good? && r.tree == t && r.used == |Encode(t)|
    decreases t, 0
  {
    hide LengthOctets, ParseLength, ParseItems, EncodeAll, AllValid;
    var buf := Encode(t) + rest;
    match t
    case Null =>
    case Fixed(tag, payload) => assert buf[1..] == payload + rest;
    case Text(tag, form, chars) =>
      var l := LengthOctets(form, |chars|);
      TailOf(tag, l, chars, rest);
      LengthComplete(form, |chars|, chars + rest);
    case Group(tag, form, items) =>
      var l := LengthOctets(form, |items|);
      TailOf(tag, l, EncodeAll(items), rest);
      LengthComplete(form, |items|, EncodeAll(items) + rest);
      ItemsComplete(items, rest);
  }

  lemma {:induction false} ItemsComplete(ts: seq<Tree>, rest: seq<byte>)
    requires AllValid(ts)
    ensures var r := ParseItems(EncodeAll(ts) + rest, |ts|);
      r.GoodItems? && r.items == ts && r.used == |EncodeAll(ts)|
    decreases ts, 1
  {
    hide ParseValue, Encode, Valid;
    if ts != [] {
      var e, more := Encode(ts[0]), EncodeAll(ts[1..]) + rest;
      var buf := EncodeAll(ts) + rest;
      assert buf == e + more;
      ParseComplete(ts[0], more);
      ItemsComplete(ts[1..], rest);
      assert buf[|e|..] == more;
      assert ts == [ts[0]] + ts[1..];
    }
  }

  /** The parser accepts the first `n` octets of an input exactly when they encode one valid value tree. */
  lemma AcceptsIff(buf: seq<byte>, n: nat)
    requires n <= |buf|
    ensures ParseValue(buf).Good? && ParseValue(buf).used == n <==> exists t :: Valid(t) && Encode(t) == buf[..n]
  {
    hide ParseValue, Valid, Encode;
    if ParseValue(buf).Good? { ParseSound(buf); }
    forall t | Valid(t) && Encode(t) == buf[..n]
      ensures ParseValue(buf).Good? && ParseValue(buf).used == n && ParseValue(buf).tree == t
    {
      ParseComplete(t, buf[n..]);
      assert buf == buf[..n] + buf[n..];
    }
  }

  /** The result depends on the octets used only. */
  lemma DependsOnUsedOnly(buf: seq<byte>, other: seq<byte>)
    requires ParseValue(buf).Good?
    requires ParseValue(buf).used <= |other| && other[..ParseValue(buf).used] == buf[..ParseValue(buf).used]
    ensures var r, s := ParseValue(buf), ParseValue(other); s.Good? && s.tree == r.tree && s.used == r.used
  {
    var r := ParseValue(buf);
    ParseSound(buf);
    ParseComplete(r.tree, other[r.used..]);
    assert other == other[..r.used] + other[r.used..];
  }

  /** No valid value tree's encoding is a prefix of another's. */
  lemma PrefixFree(t: Tree, u: Tree, rest: seq<byte>)
    requires Valid(t) && Valid(u) && Encode(u) == Encode(t) + rest
    ensures t == u && rest == []
  {
    ParseComplete(t, rest);
    ParseComplete(u, []);
    assert Encode(u) + [] == Encode(u);
  }

  function Nested(k: nat): seq<byte> {
    if k == 0 then [] else [0x01, 0x01] + Nested(k - 1)
  }

  /** The nesting bound is reached: arrays of one array each nest one deeper than half the octets. */
  lemma {:induction false} NestingBoundReached(k: nat)
    ensures |Nested(k)| == 2 * k && ParseValue(Nested(k)) == Bad(k + 1, k + 1)
    decreases k
  {
    if k > 0 {
      var buf := Nested(k);
      NestingBoundReached(k - 1);
      assert buf[1..] == [0x01] + Nested(k - 1);
      assert buf[1..][1..] == Nested(k - 1);
      assert ParseLength(buf[1..]) == Some(Length(Short, 1));
    }
  }
}
