/** OBIS codes as text (`dlms_helpers.c`): the dotted decimal form and its parser. */
module Obis {
  import opened Bytes

  const CODE_LEN := 6

  // ---------- Decimal numbers ----------

  function DigitChar(d: nat): char
    requires d < 10
  {
    match d
    case 0 => '0' case 1 => '1' case 2 => '2' case 3 => '3' case 4 => '4'
    case 5 => '5' case 6 => '6' case 7 => '7' case 8 => '8' case _ => '9'
  }

  predicate IsDigit(c: char) { '0' <= c <= '9' }

  function DigitVal(c: char): (d: nat)
    requires IsDigit(c)
    ensures d < 10
  {
    (c - '0') as int
  }

  /** `%u` */
  function Decimal(n: nat): (s: string)
    ensures |s| >= 1
  {
    if n < 10 then [DigitChar(n)] else Decimal(n / 10) + [DigitChar(n % 10)]
  }

  /** The leading digits of a text. */
  function Digits(s: string): (k: nat)
    ensures k <= |s| && forall i :: 0 <= i < k ==> IsDigit(s[i])
    ensures k < |s| ==> !IsDigit(s[k])
  {
    if s == [] || !IsDigit(s[0]) then 0 else 1 + Digits(s[1..])
  }

  function DecimalValue(s: string): nat
    requires forall i :: 0 <= i < |s| ==> IsDigit(s[i])
  {
    if s == [] then 0 else 10 * DecimalValue(s[..|s| - 1]) + DigitVal(s[|s| - 1])
  }

  lemma {:induction false} DecimalDigits(n: nat)
    ensures var s := Decimal(n); (forall i :: 0 <= i < |s| ==> IsDigit(s[i])) && DecimalValue(s) == n
    decreases n
  {
    if n >= 10 {
      DecimalDigits(n / 10);
      var t := Decimal(n / 10);
      assert (t + [DigitChar(n % 10)])[..|t|] == t;
    } else {
      assert [DigitChar(n)][..0] == [];
    }
  }

  /** No number is written with a leading zero, except zero itself. */
  lemma {:induction false} NoLeadingZero(n: nat)
    ensures Decimal(n)[0] == '0' <==> n == 0
    decreases n
  {
    if n >= 10 { NoLeadingZero(n / 10); }
  }

  lemma {:induction false} DigitsOfPrefix(d: string, rest: string)
    requires forall i :: 0 <= i < |d| ==> IsDigit(d[i])
    requires rest == [] || !IsDigit(rest[0])
    ensures Digits(d + rest) == |d|
    decreases |d|
  {
    if d == [] {
      assert d + rest == rest;
    } else {
      assert (d + rest)[1..] == d[1..] + rest;
      DigitsOfPrefix(d[1..], rest);
    }
  }

  // ---------- Codes ----------

  /** Numbers joined by dots. */
  function Dotted(code: seq<byte>): string {
    if code == [] then []
    else if |code| == 1 then Decimal(Val(code[0]))
    else Decimal(Val(code[0])) + ['.'] + Dotted(code[1..])
  }

  /** `dlms_obis_bytes_to_str`, and the same `sprintf` elsewhere. */
  function Text(code: seq<byte>): string { Dotted(code) }

  /** Up to `count` conversions `%hhu` with literal dots between them: digits are read greedily and the value
      is stored in an octet; a conversion without digits or a missing dot ends the scan. */
  function Scan(s: string, count: nat): (bs: seq<byte>)
    ensures |bs| <= count
    decreases count
  {
    if count == 0 || Digits(s) == 0 then []
    else
      var k := Digits(s);
      var b := Low8(DecimalValue(s[..k]));
      if k < |s| && s[k] == '.' then [b] + Scan(s[k + 1..], count - 1) else [b]
  }

  /** `dlms_obis_str_to_bytes` succeeds when all six conversions do. */
  function Code(s: string): Option<seq<byte>> {
    var bs := Scan(s, CODE_LEN);
    if |bs| == CODE_LEN then Some(bs) else None
  }

  /** One conversion: the digits of an octet's value, up to what is no digit. */
  lemma ScanOne(b: byte, rest: string, count: nat)
    requires count >= 1 && (rest == [] || !IsDigit(rest[0]))
    ensures Scan(Decimal(Val(b)) + rest, count)
      == [b] + (if rest == [] || rest[0] != '.' then [] else Scan(rest[1..], count - 1))
  {
    hide Val, Low8, Decimal, DecimalValue;
    var d := Decimal(Val(b));
    DecimalDigits(Val(b));
    DigitsOfPrefix(d, rest);
    ValInjective(Low8(Val(b)), b);
    assert (d + rest)[..|d|] == d;
    if rest != [] { assert (d + rest)[|d| + 1..] == rest[1..]; }
  }

  lemma ScanNothing(s: string)
    ensures Scan(s, 0) == []
  {
  }

  /** What may follow `n` octets in the text of a scan for `count`. */
  predicate EndsText(rest: string, n: nat, count: nat) {
    rest == [] || (!IsDigit(rest[0]) && (n == count || rest[0] != '.'))
  }

  lemma {:induction false} ScanDotted(code: seq<byte>, rest: string, count: nat)
    requires 1 <= |code| <= count && EndsText(rest, |code|, count)
    ensures Scan(Dotted(code) + rest, count) == code
    decreases |code|
  {
    hide Val, Decimal, Scan;
    var d := Decimal(Val(code[0]));
    if |code| == 1 {
      ScanOne(code[0], rest, count);
      if count == 1 && rest != [] { ScanNothing(rest[1..]); }
      assert Dotted(code) == d && code == [code[0]];
    } else {
      var more := ['.'] + (Dotted(code[1..]) + rest);
      ScanDotted(code[1..], rest, count - 1);
      assert more[1..] == Dotted(code[1..]) + rest;
      ScanOne(code[0], more, count);
      assert Dotted(code) + rest == d + more && code == [code[0]] + code[1..];
    }
  }

  lemma ScanPart(code: seq<byte>)
    requires 1 <= |code| <= CODE_LEN
    ensures Scan(Text(code), CODE_LEN) == code
  {
    ScanDotted(code, [], CODE_LEN);
    assert Text(code) + [] == Text(code);
  }

  lemma ScanNoDigit(s: string)
    requires s == [] || !IsDigit(s[0])
    ensures Scan(s, CODE_LEN) == []
  {
  }

  /** What comes behind the text of a code is ignored, as long as it does not start with a digit; fewer than six numbers
      are no code. */
  lemma TextWithMore(code: seq<byte>, rest: string)
    requires 1 <= |code| <= 6 && EndsText(rest, |code|, 6)
    ensures Code(Text(code) + rest) == if |code| == 6 then Some(code) else None
  {
    ScanDotted(code, rest, 6);
  }

  lemma OctetDigits(b: byte)
    ensures 1 <= |Decimal(Val(b))| <= 3
  {
    hide Val;
    var n := Val(b);
    if n >= 10 {
      assert |Decimal(n)| == |Decimal(n / 10)| + 1;
      if n / 10 >= 10 { assert |Decimal(n / 10)| == |Decimal(n / 100)| + 1 && n / 100 < 10; }
    }
  }

  lemma {:induction false} DottedSize(code: seq<byte>)
    ensures |Dotted(code)| <= 4 * |code|
    ensures code != [] ==> |Dotted(code)| <= 4 * |code| - 1
    decreases |code|
  {
    hide Decimal, Val;
    if code != [] {
      OctetDigits(code[0]);
      DottedSize(code[1..]);
    }
  }

  /** The text of a code fits its buffer of 32 with the terminating zero. */
  lemma TextSize(code: seq<byte>)
    requires |code| == CODE_LEN
    ensures |Text(code)| <= 23
  {
    DottedSize(code);
  }

  lemma DottedCons(b: byte, rest: seq<byte>)
    requires rest != []
    ensures Dotted([b] + rest) == Decimal(Val(b)) + "." + Dotted(rest)
  {
    hide Decimal, Val;
    assert ([b] + rest)[1..] == rest;
  }

  lemma DottedLast(b: byte)
    ensures Dotted([b]) == Decimal(Val(b))
  {
  }

  lemma JoinSix<T>(a: seq<T>, b: seq<T>, c: seq<T>, d: seq<T>, e: seq<T>, f: seq<T>, dot: seq<T>)
    ensures a + dot + (b + dot + (c + dot + (d + dot + (e + dot + f))))
      == a + dot + b + dot + c + dot + d + dot + e + dot + f
  {
  }

  /** The text of a code: its octets in order, in decimal without leading zeros, with dots between them. */
  lemma TextIs(a: byte, b: byte, c: byte, d: byte, e: byte, f: byte)
    ensures Text([a, b, c, d, e, f]) ==
      Decimal(Val(a)) + "." + Decimal(Val(b)) + "." + Decimal(Val(c)) + "." + Decimal(Val(d)) + "."
      + Decimal(Val(e)) + "." + Decimal(Val(f))
  {
    hide Decimal, Val, Dotted;
    assert [a, b, c, d, e, f] == [a] + [b, c, d, e, f] && [b, c, d, e, f] == [b] + [c, d, e, f];
    assert [c, d, e, f] == [c] + [d, e, f] && [d, e, f] == [d] + [e, f] && [e, f] == [e] + [f];
    DottedCons(a, [b, c, d, e, f]);
    DottedCons(b, [c, d, e, f]);
    DottedCons(c, [d, e, f]);
    DottedCons(d, [e, f]);
    DottedCons(e, [f]);
    DottedLast(f);
    JoinSix(Decimal(Val(a)), Decimal(Val(b)), Decimal(Val(c)), Decimal(Val(d)), Decimal(Val(e)), Decimal(Val(f)), ".");
  }

  /** Text and six-octet codes stand for each other: printing and scanning give the code back. */
  lemma TextRoundTrip(code: seq<byte>)
    requires |code| == CODE_LEN
    ensures Code(Text(code)) == Some(code)
  {
    ScanPart(code);
  }

  /** So a cache keyed by text and a lookup by code agree: equal texts are equal codes. */
  lemma TextInjective(a: seq<byte>, b: seq<byte>)
    requires |a| == CODE_LEN && |b| == CODE_LEN && Text(a) == Text(b)
    ensures a == b
  {
    TextRoundTrip(a);
    TextRoundTrip(b);
  }
}
