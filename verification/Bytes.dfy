/** Octets, and the few facts about converting them to and from integers that the frame formats rely on. */
module Bytes {

  type byte = bv8

  datatype Option<+T> = None | Some(value: T)

  function Min(a: nat, b: nat): nat { if a < b then a else b }

  function Max(a: nat, b: nat): nat { if a < b then b else a }

  /** The integer an octet stands for. */
  function Val(b: byte): (n: nat)
    ensures n < 256
  {
    b as int
  }

  lemma OctetNext(b: byte)
    requires Val(b) < 255
    ensures Val(b + 1) == Val(b) + 1
  {
  }

  function Octet(n: nat): (b: byte)
    requires n < 256
    ensures Val(b) == n
  {
    if n == 0 then 0 else OctetNext(Octet(n - 1)); Octet(n - 1) + 1
  }

  /** The low eight bits of a natural number: a C assignment to a `uint8_t`. */
  function Low8(n: nat): (b: byte)
    ensures Val(b) == n % 256
  {
    Octet(n % 256)
  }

  /** The two octets of a word. */
  function High(x: bv16): bv16 { x >> 8 }

  function Low(x: bv16): byte { (x & 0xff) as byte }

  /** Two octets, most significant first. */
  function Word(hi: byte, lo: byte): (w: nat)
    ensures w == 256 * Val(hi) + Val(lo) < 0x1_0000
  {
    256 * Val(hi) + Val(lo)
  }

  lemma ValInjective(a: byte, b: byte)
    requires Val(a) == Val(b)
    ensures a == b
  {
  }

  lemma ShortOctet(b: byte)
    ensures b < 0x80 <==> Val(b) < 0x80
  {
  }

  // ---------- Bit fields as numbers ----------

  lemma Parity(b: byte)
    ensures Val(b & 1) == Val(b) % 2
  {
  }

  lemma LowThree(b: byte)
    ensures Val(b & 7) == Val(b) % 8
  {
  }

  lemma LowFour(b: byte)
    ensures Val(b & 0x0F) == Val(b) % 16
  {
  }

  lemma ShiftedOne(b: byte)
    ensures Val(b >> 1) == Val(b) / 2
  {
  }

  lemma ShiftedFive(b: byte)
    ensures Val(b >> 5) == Val(b) / 32 && (b >> 5) & 7 == b >> 5
  {
  }

  lemma ZeroOrOne(b: byte)
    ensures (Val(b) == 0 <==> b == 0) && (Val(b) == 1 <==> b == 1)
  {
  }

  lemma WordValue(x: bv16)
    ensures 256 * Val(Low(High(x))) + Val(Low(x)) == x as int
  {
  }

  // ---------- Sequences ----------

  lemma Assoc<T>(a: seq<T>, b: seq<T>, c: seq<T>)
    ensures a + b + c == a + (b + c)
  {
  }

  lemma SliceOfSlice<T>(s: seq<T>, lo: nat, hi: nat, a: nat, b: nat)
    requires lo <= hi <= |s| && a <= b <= hi - lo
    ensures s[lo..hi][a..b] == s[lo + a..lo + b]
  {
    forall i | 0 <= i < b - a ensures s[lo..hi][a..b][i] == s[lo + a..lo + b][i] {}
  }

  lemma SliceOfPrefix<T>(s: seq<T>, more: seq<T>, lo: nat, hi: nat)
    requires lo <= hi <= |s|
    ensures (s + more)[lo..hi] == s[lo..hi]
  {
  }

  function Concat<T>(parts: seq<seq<T>>): seq<T> {
    if parts == [] then [] else parts[0] + Concat(parts[1..])
  }

  lemma ConcatCons<T>(first: seq<T>, parts: seq<seq<T>>)
    ensures Concat([first] + parts) == first + Concat(parts)
  {
    assert ([first] + parts)[1..] == parts;
  }

  lemma {:induction false} ConcatAppend<T>(parts: seq<seq<T>>, more: seq<seq<T>>)
    ensures Concat(parts + more) == Concat(parts) + Concat(more)
  {
    if parts == [] {
      assert parts + more == more;
    } else {
      assert (parts + more)[1..] == parts[1..] + more;
      ConcatAppend(parts[1..], more);
    }
  }

  /** One part for each element. */
  function Singles<T>(s: seq<T>): (parts: seq<seq<T>>)
    ensures Concat(parts) == s
  {
    if s == [] then [] else [[s[0]]] + Singles(s[1..])
  }
}
