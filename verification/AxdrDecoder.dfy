/** The decoders of `dlms_axdr.c` that write into a reading, proved against the parser of `Axdr`. */
module AxdrDecoder {
  import opened Bytes
  import opened Readings
  import opened Axdr

  const STR_CAPACITY := 128

  // ---------- Integers ----------

  function Pow256(n: nat): (p: nat)
    ensures p >= 1
  {
    if n == 0 then 1 else 256 * Pow256(n - 1)
  }

  /** The unsigned value of octets, most significant first. */
  function BigEndian(s: seq<byte>): nat {
    if s == [] then 0 else 256 * BigEndian(s[..|s| - 1]) + Val(s[|s| - 1])
  }

  /** A C conversion of an unsigned value to the signed type of `n` octets. */
  function ToSigned(v: nat, n: nat): int {
    if 2 * v >= Pow256(n) then v - Pow256(n) else v
  }

  /** The octets of `v` modulo 256 to the power `n`, most significant first. */
  function Octets(v: int, n: nat): (s: seq<byte>)
    ensures |s| == n
    decreases n
  {
    if n == 0 then [] else Octets(v / 256, n - 1) + [Low8(v % 256)]
  }

  lemma BigEndianSnoc(t: seq<byte>, b: byte)
    ensures BigEndian(t + [b]) == 256 * BigEndian(t) + Val(b)
  {
    assert (t + [b])[..|t|] == t;
  }

  lemma LowOctet(v: int)
    ensures Val(Low8(v % 256)) == v % 256
  {
  }

  lemma EmptyIsZero()
    ensures BigEndian([]) == 0
  {
  }

  lemma Distribute(p: int, q: int, r: int)
    ensures 256 * (p * q + r) == (256 * p) * q + 256 * r
  {
  }

  lemma MultipleBeyond(m: nat, d: int)
    ensures d >= 1 ==> m * d >= m
    ensures d <= -1 ==> m * d + m <= 0
  {
  }

  lemma Unique(v: int, m: nat, q: int, r: nat)
    requires v == m * q + r && r < m
    ensures v % m == r
  {
    var d := v / m - q;
    assert v == m * (v / m) + v % m;
    assert m * d == r - v % m by { assert m * d == m * (v / m) - m * q; }
    MultipleBeyond(m, d);
  }

  lemma ModStep(v: int, p: nat)
    requires p > 0
    ensures v % (256 * p) == 256 * ((v / 256) % p) + v % 256
  {
    var q, r := (v / 256) / p, (v / 256) % p;
    assert v == 256 * (p * q + r) + v % 256;
    assert 256 * (p * q + r) == (256 * p) * q + 256 * r by { Distribute(p, q, r); }
    Unique(v, 256 * p, q, 256 * r + v % 256);
  }

  lemma {:induction false} BigEndianOfOctets(v: int, n: nat)
    ensures BigEndian(Octets(v, n)) == v % Pow256(n)
    decreases n
  {
    hide BigEndian, Low8;
    if n > 0 {
      var t, b, p := Octets(v / 256, n - 1), Low8(v % 256), Pow256(n - 1);
      BigEndianSnoc(t, b);
      BigEndianOfOctets(v / 256, n - 1);
      LowOctet(v);
      ModStep(v, p);
      assert Pow256(n) == 256 * p;
      hide Pow256;
      assert Octets(v, n) == t + [b];
      hide Octets;
    } else {
      assert BigEndian([]) == 0 by { EmptyIsZero(); }
    }
  }

  /** Big-endian two's complement: decoding gives back every integer of the signed range of `n` octets. */
  lemma TwosComplementRoundTrip(v: int, n: nat)
    requires n >= 1 && 0 <= 2 * v + Pow256(n) < 2 * Pow256(n)
    ensures ToSigned(BigEndian(Octets(v, n)), n) == v
  {
    BigEndianOfOctets(v, n);
    var m := Pow256(n);
    if v < 0 { Unique(v, m, -1, v + m); } else { Unique(v, m, 0, v); }
  }

  /** The loop of the 64-bit decoders, and the shifts of the shorter ones. */
  method DecodeUnsigned(buf: seq<byte>) returns (v: nat)
    ensures v == BigEndian(buf)
  {
    v := 0;
    assert buf[..|buf|] == buf;
    for i := 0 to |buf|
      invariant v == BigEndian(buf[..i])
    {
      assert buf[..i + 1][..i] == buf[..i];
      v := 256 * v + Val(buf[i]);
    }
  }

  // ---------- What a decoded value leaves in a reading ----------

  /** The union after decoding the payload of a fixed-size type. */
  function StoreFixed(tag: byte, payload: seq<byte>, before: Value): Value {
    var n, v := |payload|, BigEndian(payload);
    match tag
    case 0x03 => BoolVal(v != 0)
    case 0x0F => IntVal(ToSigned(v, n))
    case 0x10 => IntVal(ToSigned(v, n))
    case 0x05 => IntVal(ToSigned(v, n))
    case 0x14 => IntVal(ToSigned(v, n))
    case 0x11 => UintVal(v)
    case 0x16 => UintVal(v)
    case 0x12 => IntVal(v)
    case 0x06 => IntVal(v)
    case 0x15 => IntVal(ToSigned(v, 8))
    case 0x17 => FloatBits(v)
    case 0x18 => DoubleBits(v)
    case _ => before
  }

  /** The union after decoding a value; null data and groups leave it alone, strings are cut to the buffer. */
  function Store(t: Tree, before: Value): Value {
    match t
    case Null => before
    case Fixed(tag, payload) => StoreFixed(tag, payload, before)
    case Text(_, _, chars) => StrVal(chars[..Min(|chars|, STR_CAPACITY - 1)])
    case Group(_, _, _) => before
  }

  /** Decoding a fixed-size payload. */
  method DecodeFixed(tag: byte, payload: seq<byte>, reading: ReadingBuffer)
    modifies reading`value
    ensures reading.value == StoreFixed(tag, payload, old(reading.value))
  {
    hide BigEndian, ToSigned;
    var v := DecodeUnsigned(payload);
    match tag {
      case 0x03 => reading.value := BoolVal(v != 0);
      case 0x0F => reading.value := IntVal(ToSigned(v, |payload|));
      case 0x10 => reading.value := IntVal(ToSigned(v, |payload|));
      case 0x05 => reading.value := IntVal(ToSigned(v, |payload|));
      case 0x14 => reading.value := IntVal(ToSigned(v, |payload|));
      case 0x11 => reading.value := UintVal(v);
      case 0x16 => reading.value := UintVal(v);
      case 0x12 => reading.value := UintVal(v); reading.value := IntVal(v);
      case 0x06 => reading.value := UintVal(v); reading.value := IntVal(v);
      case 0x15 => reading.value := UintVal(v); reading.value := IntVal(ToSigned(v, 8));
      case 0x17 => reading.value := FloatBits(v);
      case 0x18 => reading.value := DoubleBits(v);
      case _ =>
    }
  }

  lemma SliceOfText<T>(buf: seq<T>, k: nat, n: nat, m: nat)
    requires m <= n && 1 + k + n <= |buf|
    ensures buf[1 + k..1 + k + m] == buf[1..][k..k + n][..m]
  {
  }

  /** `axdr_parse_value`: the octets used, or -1. */
  method ParseInto(buf: seq<byte>, reading: ReadingBuffer) returns (consumed: int, ghost calls: nat, ghost depth: nat)
    modifies reading`dataType, reading`value
    ensures consumed == if ParseValue(buf).Good? then ParseValue(buf).used else -1
    ensures calls == ParseValue(buf).calls && depth == ParseValue(buf).depth
    ensures reading.dataType == if |buf| >= 1 then buf[0] else old(reading.dataType)
    ensures reading.value ==
      if ParseValue(buf).Good? then Store(ParseValue(buf).tree, old(reading.value)) else old(reading.value)
    decreases |buf|, 0
  {
    hide KindOf, ParseLength, StoreFixed, ParseItems;
    calls, depth := 1, 1;
    if |buf| < 1 { return -1, 1, 1; }
    var tag := buf[0];
    reading.dataType := tag;
    consumed := 1;
    match KindOf(tag) {
      case NoContent =>
      case FixedSize(n) =>
        if |buf| - consumed < n { return -1, 1, 1; }
        assert buf[1..][..n] == buf[consumed..consumed + n];
        DecodeFixed(tag, buf[consumed..consumed + n], reading);
        consumed := consumed + n;
      case LengthPrefixed =>
        var len := ParseLength(buf[consumed..]);
        if len.None? { return -1, 1, 1; }
        var k := len.value.form.Size();
        if |buf| - consumed < k + len.value.value { return -1, 1, 1; }
        ghost var chars := buf[1..][k..k + len.value.value];
        var copyLen := if len.value.value < STR_CAPACITY - 1 then len.value.value else STR_CAPACITY - 1;
        reading.value := StrVal(buf[consumed + k..consumed + k + copyLen]);
        SliceOfText(buf, k, len.value.value, copyLen);
        consumed := consumed + k + len.value.value;
      case Elements =>
        var len := ParseLength(buf[consumed..]);
        if len.None? { return -1, 1, 1; }
        consumed := consumed + len.value.form.Size();
        assert buf[1..][len.value.form.Size()..] == buf[consumed..];
        var bytes, itemCalls, itemDepth := ParseItemsInto(buf[consumed..], len.value.value);
        calls, depth := 1 + itemCalls, 1 + itemDepth;
        if bytes < 0 { return -1, calls, depth; }
        consumed := consumed + bytes;
      case Unsupported =>
        return -1, 1, 1;
    }
  }

  /** Parsing the remaining elements completes parsing all of them. */
  ghost predicate Resumes(whole: ParsedItems, remaining: ParsedItems, used: int, calls: int, depth: int) {
    && (whole.GoodItems? <==> remaining.GoodItems?)
    && whole.calls == calls + remaining.calls
    && whole.depth == (if depth < remaining.depth then remaining.depth else depth)
    && (whole.GoodItems? ==> whole.used == used + remaining.used)
  }

  lemma FirstElement(buf: seq<byte>, count: nat)
    requires count > 0
    ensures var p, r := ParseValue(buf), ParseItems(buf, count);
      if p.Good? then Resumes(r, ParseItems(buf[p.used..], count - 1), p.used, p.calls, p.depth)
      else r == BadItems(p.calls, p.depth)
  {
  }

  lemma ResumesAgain(whole: ParsedItems, mid: ParsedItems, last: ParsedItems, u: int, c: int, d: int, u': int,
      c': int, d': int)
    requires Resumes(whole, mid, u, c, d) && Resumes(mid, last, u', c', d')
    ensures Resumes(whole, last, u + u', c + c', if d < d' then d' else d)
  {
  }

  lemma NoElements(buf: seq<byte>)
    ensures ParseItems(buf, 0) == GoodItems([], 0, 0, 0)
  {
  }

  /** The loop over the elements, each decoded into a reading of its own that is thrown away. */
  method ParseItemsInto(buf: seq<byte>, count: nat) returns (consumed: int, ghost calls: nat, ghost depth: nat)
    ensures consumed == if ParseItems(buf, count).GoodItems? then ParseItems(buf, count).used else -1
    ensures calls == ParseItems(buf, count).calls && depth == ParseItems(buf, count).depth
    decreases |buf|, 1
  {
    hide ParseValue, ParseItems;
    consumed, calls, depth := 0, 0, 0;
    assert buf[0..] == buf;
    ghost var whole := ParseItems(buf, count);
    var i := 0;
    while i < count
      invariant i <= count && 0 <= consumed <= |buf|
      invariant Resumes(whole, ParseItems(buf[consumed..], count - i), consumed, calls, depth)
    {
      var dummy := new ReadingBuffer(CLEARED);
      var bytes, subCalls, subDepth := ParseInto(buf[consumed..], dummy);
      FirstElement(buf[consumed..], count - i);
      if bytes < 0 {
        return -1, calls + subCalls, Max(depth, subDepth);
      }
      assert buf[consumed..][bytes..] == buf[consumed + bytes..];
      ResumesAgain(whole, ParseItems(buf[consumed..], count - i), ParseItems(buf[consumed + bytes..], count - i - 1),
                   consumed, calls, depth, bytes, subCalls, subDepth);
      calls, depth := calls + subCalls, Max(depth, subDepth);
      consumed := consumed + bytes;
      i := i + 1;
    }
    NoElements(buf[consumed..]);
  }

  // ---------- What is stored ----------

  lemma Powers()
    ensures Pow256(0) == 1 && Pow256(1) == 0x100 && Pow256(2) == 0x1_0000 && Pow256(4) == 0x1_0000_0000
    ensures Pow256(8) == 0x1_0000_0000_0000_0000
  {
    assert Pow256(3) == 0x100_0000 && Pow256(4) == 0x1_0000_0000;
    assert Pow256(5) == 0x100_0000_0000 && Pow256(6) == 0x1_0000_0000_0000;
    assert Pow256(7) == 0x100_0000_0000_0000;
  }

  lemma Heavier(d: nat, k: nat, r: nat)
    ensures 256 * (d * Pow256(k) + r) == d * Pow256(k + 1) + 256 * r
  {
    var p := Pow256(k);
    assert Pow256(k + 1) == 256 * p;
    assert 256 * (d * p + r) == d * (256 * p) + 256 * r;
  }

  lemma OneOctetValue(b: byte)
    ensures BigEndian([b]) == Val(b)
  {
    hide Val;
    BigEndianSnoc([], b);
    assert [] + [b] == [b];
  }

  /** The first octet weighs most. */
  lemma {:induction false} BigEndianCons(b: byte, t: seq<byte>)
    ensures BigEndian([b] + t) == Val(b) * Pow256(|t|) + BigEndian(t)
    decreases |t|
  {
    hide Val, BigEndian, Pow256;
    if t == [] {
      OneOctetValue(b);
      EmptyIsZero();
      Powers();
      assert [b] + t == [b];
    } else {
      var init, last := t[..|t| - 1], t[|t| - 1];
      assert [b] + t == ([b] + init) + [last] && t == init + [last];
      BigEndianSnoc([b] + init, last);
      BigEndianSnoc(init, last);
      BigEndianCons(b, init);
      Heavier(Val(b), |init|, BigEndian(init));
    }
  }

  /** What each type of fixed size leaves in a reading: a boolean is whether its octet is not zero, signed numbers are
      two's complement, unsigned ones as they are up to the 64-bit one, which is stored as a signed number, and
      floating-point numbers are their octets. */
  lemma FixedStores(tag: byte, payload: seq<byte>, before: Value)
    requires HasSize(tag, |payload|)
    ensures var u, v := StoreFixed(tag, payload, before), BigEndian(payload) as int;
      (tag == 0x03 ==> u == BoolVal(payload[0] != 0))
      && (tag == 0x0F ==> u == IntVal(if v < 0x80 then v else v - 0x100))
      && (tag == 0x10 ==> u == IntVal(if v < 0x8000 then v else v - 0x1_0000))
      && (tag == 0x05 ==> u == IntVal(if v < 0x8000_0000 then v else v - 0x1_0000_0000))
      && (tag == 0x14 || tag == 0x15 ==>
            u == IntVal(if v < 0x8000_0000_0000_0000 then v else v - 0x1_0000_0000_0000_0000))
      && (tag == 0x11 || tag == 0x16 ==> u == UintVal(v))
      && (tag == 0x12 || tag == 0x06 ==> u == IntVal(v))
      && (tag == 0x17 ==> u == FloatBits(v)) && (tag == 0x18 ==> u == DoubleBits(v))
  {
    hide Pow256, BigEndian;
    Powers();
    if tag == 0x03 {
      assert payload == [payload[0]];
      OneOctetValue(payload[0]);
      ZeroOrOne(payload[0]);
    }
  }

  /** Strings leave their first 127 octets; null data, arrays and structures leave nothing. */
  lemma OthersStore(t: Tree, before: Value)
    requires !t.Fixed?
    ensures Store(t, before) == if t.Text? then StrVal(if |t.chars| <= 127 then t.chars else t.chars[..127]) else before
  {
    if t.Text? && |t.chars| <= 127 { assert t.chars[..|t.chars|] == t.chars; }
  }

  // ---------- Decoded integers ----------

  /** The integer that later code reads from `int_val`. */
  function AsInt(v: Value): int
    requires v.IntVal? || v.UintVal?
  {
    match v
    case IntVal(i) => i
    case UintVal(u) => ToSigned(u, 8)
  }

  predicate IsSigned(tag: byte) { tag == 0x0F || tag == 0x10 || tag == 0x05 || tag == 0x14 }

  predicate IsUnsigned(tag: byte) { tag == 0x11 || tag == 0x16 || tag == 0x12 || tag == 0x06 || tag == 0x15 }

  lemma Pow256Monotone(m: nat, n: nat)
    requires m <= n
    ensures 1 <= Pow256(m) <= Pow256(n)
    decreases n
  {
    if m < n { Pow256Monotone(m, n - 1); } else if n > 0 { Pow256Monotone(0, n - 1); }
  }

  lemma OneOctetPositive(v: nat)
    requires v < Pow256(1)
    ensures ToSigned(v, 8) == v
  {
    assert Pow256(8) == 256 * Pow256(7);
    Pow256Monotone(1, 7);
  }

  /** A top-level integer of any supported type, encoded in big-endian two's complement with its tag in
      front, is decoded to itself; an unsigned 64-bit value is read back as its signed counterpart. */
  lemma IntegersDecode(tag: byte, v: int, n: nat, before: Value)
    requires match n
             case 1 => tag == 0x0F || tag == 0x11 || tag == 0x16
             case 2 => tag == 0x10 || tag == 0x12
             case 4 => tag == 0x05 || tag == 0x06
             case 8 => tag == 0x14 || tag == 0x15
             case _ => false
    requires (IsSigned(tag) && 0 <= 2 * v + Pow256(n) < 2 * Pow256(n)) || (IsUnsigned(tag) && 0 <= v < Pow256(n))
    ensures Valid(Fixed(tag, Octets(v, n)))
    ensures var u := StoreFixed(tag, Octets(v, n), before);
      (u.IntVal? || u.UintVal?) && AsInt(u) == if tag == 0x15 then ToSigned(v, 8) else v
  {
    hide Octets, BigEndian, Pow256;
    if IsSigned(tag) {
      TwosComplementRoundTrip(v, n);
    } else {
      BigEndianOfOctets(v, n);
      Unique(v, Pow256(n), 0, v);
      if tag == 0x11 || tag == 0x16 { OneOctetPositive(v); }
    }
  }
}
