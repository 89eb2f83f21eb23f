/** The association request and response of `dlms_client.c`. */
module Association {
  import opened Bytes
  import opened Buffers

  const TAG_AARQ: byte := 0x60
  const TAG_AARE: byte := 0x61
  const TAG_RESULT: byte := 0xA2
  const APP_CONTEXT_SN: seq<byte> := [0x06, 0x07, 0x60, 0x85, 0x74, 0x05, 0x08, 0x01, 0x02]
  const AUTH_MECHANISM_LOW_SN: seq<byte> := [0x60, 0x85, 0x74, 0x05, 0x08, 0x02, 0x01]
  const USER_INFO: seq<byte> :=
    [0x04, 0x0E, 0x01, 0x00, 0x00, 0x00, 0x06, 0x5F, 0x1F, 0x04, 0x00, 0x1C, 0x03, 0x20, 0xFF, 0xFF]
  const MAX_PASSWORD_LEN := 31

  // ---------- Tag, length, value ----------

  datatype Tlv = Tlv(tag: byte, value: seq<byte>)

  /** With a length in the short form of section 8.1.3.4 of ITU-T X.690, when it fits. */
  function Encode(t: Tlv): seq<byte> { [t.tag, Low8(|t.value|)] + t.value }

  function EncodeAll(ts: seq<Tlv>): seq<byte> {
    if ts == [] then [] else Encode(ts[0]) + EncodeAll(ts[1..])
  }

  /** Reading a string of short-form TLVs that tile it exactly. */
  function Tile(s: seq<byte>): Option<seq<Tlv>>
    decreases |s|
  {
    if s == [] then Some([])
    else if |s| < 2 || s[1] >= 0x80 || |s| < 2 + Val(s[1]) then None
    else
      match Tile(s[2 + Val(s[1])..])
      case None => None
      case Some(ts) => Some([Tlv(s[0], s[2..2 + Val(s[1])])] + ts)
  }

  lemma ShortLength(n: nat)
    requires n < 0x100
    ensures Low8(n) < 0x80 <==> n < 0x80
    ensures Val(Low8(n)) == n
  {
    hide Low8;
    ShortOctet(Low8(n));
  }

  lemma TlvParts(t: Tlv, rest: seq<byte>)
    ensures var s := Encode(t) + rest;
      |s| == 2 + |t.value| + |rest| && s[0] == t.tag && s[1] == Low8(|t.value|)
      && s[2..2 + |t.value|] == t.value && s[2 + |t.value|..] == rest
  {
  }

  lemma TileStep(t: Tlv, rest: seq<byte>)
    requires |t.value| < 0x80
    ensures Tile(Encode(t) + rest) == match Tile(rest) { case None => None case Some(ts) => Some([t] + ts) }
  {
    hide Encode, Low8, Val;
    TlvParts(t, rest);
    ShortLength(|t.value|);
  }

  lemma TileNothing()
    ensures Tile([]) == Some([])
  {
  }

  /** Short-form TLVs are read back as they were written. */
  lemma {:induction false} TileEncoded(ts: seq<Tlv>)
    requires forall k :: 0 <= k < |ts| ==> |ts[k].value| < 0x80
    ensures Tile(EncodeAll(ts)) == Some(ts)
    decreases |ts|
  {
    hide Encode, Tile;
    if ts == [] {
      TileNothing();
    } else {
      TileStep(ts[0], EncodeAll(ts[1..]));
      TileEncoded(ts[1..]);
      assert ts == [ts[0]] + ts[1..];
    }
  }

  // ---------- The request ----------

  /** The children of the request; with the low-level password, the authentication comes in between. */
  function Children(password: Option<seq<byte>>): seq<Tlv> {
    [Tlv(0xA1, APP_CONTEXT_SN)]
    + (match password
       case None => []
       case Some(pw) =>
         [Tlv(0x8A, [0x07, 0x80]), Tlv(0x8B, AUTH_MECHANISM_LOW_SN), Tlv(0xAC, [0x80, Low8(|pw|)] + pw)])
    + [Tlv(0xBE, USER_INFO)]
  }

  function ContentLen(password: Option<seq<byte>>): nat {
    29 + match password { case None => 0 case Some(pw) => 17 + |pw| }
  }

  /** What only LOW authentication writes. */
  function Authentication(password: Option<seq<byte>>): seq<byte> {
    match password
    case None => []
    case Some(pw) =>
      [0x8A, 0x02, 0x07, 0x80] + ([0x8B, 0x07] + AUTH_MECHANISM_LOW_SN)
      + ([0xAC, Low8(|pw| + 2), 0x80, Low8(|pw|)] + pw)
  }

  /** The request as it is written: every length is cut to one octet. */
  function Aarq(password: Option<seq<byte>>): (s: seq<byte>) {
    [TAG_AARQ, Low8(ContentLen(password))]
    + ([0xA1, 0x09] + APP_CONTEXT_SN + Authentication(password) + ([0xBE, 0x10] + USER_INFO))
  }

  lemma JoinWith<T>(tag: T, l: T, z: T, a: seq<T>, r: seq<T>, m: seq<T>, c: seq<T>, p: seq<T>, u: seq<T>)
    ensures ([] + [tag] + [z] + a + r + m + c + p + u)[1 := l] == [tag, l] + (a + (r + m + (c + p)) + u)
  {
  }

  lemma JoinWithout<T>(tag: T, l: T, z: T, a: seq<T>, u: seq<T>)
    ensures ([] + [tag] + [z] + a + u)[1 := l] == [tag, l] + (a + [] + u)
  {
  }

  /** The part of `build_aarq_sn` that only LOW authentication writes. */
  method AddAuthentication(out: array<byte>, start: nat, pw: seq<byte>, ghost done: seq<byte>, ghost was: seq<byte>)
    returns (pos: nat)
    requires start + 17 + |pw| <= out.Length && |done| == start && Written(out[..], done, was)
    modifies out
    ensures pos == start + 17 + |pw|
    ensures Written(out[..], done + [0x8A, 0x02, 0x07, 0x80] + ([0x8B, 0x07] + AUTH_MECHANISM_LOW_SN)
                             + [0xAC, Low8(|pw| + 2), 0x80, Low8(|pw|)] + pw, was)
  {
    hide Written, Low8;
    ghost var d := done;
    pos := Copy(out, start, [0x8A, 0x02, 0x07, 0x80], d, was);
    d := d + [0x8A, 0x02, 0x07, 0x80];
    pos := Copy(out, pos, [0x8B, 0x07] + AUTH_MECHANISM_LOW_SN, d, was);
    d := d + ([0x8B, 0x07] + AUTH_MECHANISM_LOW_SN);
    var pwLen := |pw|;
    pos := Copy(out, pos, [0xAC, Low8(pwLen + 2), 0x80, Low8(pwLen)], d, was);
    d := d + [0xAC, Low8(pwLen + 2), 0x80, Low8(pwLen)];
    pos := Copy(out, pos, pw, d, was);
  }

  /** `build_aarq_sn`, for LOW authentication with a password and for none. The length octet is filled in last. */
  method BuildAarq(out: array<byte>, password: Option<seq<byte>>) returns (pos: nat)
    requires 2 + ContentLen(password) <= out.Length
    modifies out
    ensures pos == |Aarq(password)| && Written(out[..], Aarq(password), old(out[..]))
  {
    hide Written, Low8;
    ghost var was := out[..];
    Untouched(was);
    pos := Put(out, 0, TAG_AARQ, [], was);
    var aarqLenPos := pos;
    pos := Put(out, pos, 0, [] + [TAG_AARQ], was);
    var contentStart := pos;
    ghost var done := [] + [TAG_AARQ] + [0];
    ghost var a, u := [0xA1, 0x09] + APP_CONTEXT_SN, [0xBE, 0x10] + USER_INFO;
    pos := Copy(out, pos, [0xA1, 0x09] + APP_CONTEXT_SN, done, was);
    done := done + a;
    if password.Some? {
      var pw := password.value;
      pos := AddAuthentication(out, pos, pw, done, was);
      ghost var r, m := [0x8A, 0x02, 0x07, 0x80], [0x8B, 0x07] + AUTH_MECHANISM_LOW_SN;
      ghost var c := [0xAC, Low8(|pw| + 2), 0x80, Low8(|pw|)];
      done := done + r + m + c + pw;
      JoinWith(TAG_AARQ, Low8(ContentLen(password)), 0, a, r, m, c, pw, u);
    } else {
      JoinWithout(TAG_AARQ, Low8(ContentLen(password)), 0, a, u);
    }
    pos := Copy(out, pos, [0xBE, 0x10] + USER_INFO, done, was);
    done := done + u;
    assert pos - contentStart == ContentLen(password);
    Patch(out, aarqLenPos, Low8(pos - contentStart), done, was);
    assert done[1 := Low8(ContentLen(password))] == Aarq(password);
  }

  lemma One(t: Tlv)
    ensures EncodeAll([t]) == Encode(t)
  {
    assert [t][1..] == [];
  }

  lemma EncodeFive(a: Tlv, r: Tlv, m: Tlv, c: Tlv, z: Tlv)
    ensures EncodeAll([a, r, m, c, z]) == Encode(a) + (Encode(r) + Encode(m) + Encode(c)) + Encode(z)
  {
    hide Encode;
    One(z);
    assert [a, r, m, c, z][1..] == [r, m, c, z] && [r, m, c, z][1..] == [m, c, z];
    assert [m, c, z][1..] == [c, z] && [c, z][1..] == [z];
    assert EncodeAll([m, c, z]) == Encode(m) + (Encode(c) + Encode(z));
    assert EncodeAll([a, r, m, c, z]) == Encode(a) + (Encode(r) + (Encode(m) + (Encode(c) + Encode(z))));
  }

  lemma EncodeTwo(a: Tlv, z: Tlv)
    ensures EncodeAll([a, z]) == Encode(a) + Encode(z)
  {
    One(z);
    assert [a, z][1..] == [z];
  }

  lemma Encoded(t: Tlv, l: byte)
    requires Low8(|t.value|) == l
    ensures Encode(t) == [t.tag, l] + t.value
  {
  }

  lemma Join<T>(x: T, y: T, s: seq<T>)
    requires |s| == 2
    ensures [x, y] + s == [x, y, s[0], s[1]]
  {
  }

  lemma Regroup<T>(a: T, b: T, c: T, d: T, s: seq<T>)
    ensures [a, b] + ([c, d] + s) == [a, b, c, d] + s
  {
  }

  lemma LowLiteral(n: nat, b: byte)
    requires n < 0x100 && Val(b) == n
    ensures Low8(n) == b
  {
    hide Low8, Val;
    ValInjective(Low8(n), b);
  }

  lemma LiteralLengths()
    ensures Low8(9) == 0x09 && Low8(2) == 0x02 && Low8(7) == 0x07 && Low8(16) == 0x10
  {
    assert Val(0x09) == 9 && Val(0x02) == 2 && Val(0x07) == 7 && Val(0x10) == 16;
    LowLiteral(9, 0x09);
    LowLiteral(2, 0x02);
    LowLiteral(7, 0x07);
    LowLiteral(16, 0x10);
  }

  lemma AuthenticationEncoded(pw: seq<byte>, r: Tlv, m: Tlv, c: Tlv)
    requires |pw| < 0xFE && r == Tlv(0x8A, [0x07, 0x80]) && m == Tlv(0x8B, AUTH_MECHANISM_LOW_SN)
    requires c == Tlv(0xAC, [0x80, Low8(|pw|)] + pw)
    ensures Authentication(Some(pw)) == Encode(r) + Encode(m) + Encode(c)
  {
    hide Low8, Val, Encode;
    LiteralLengths();
    Encoded(r, 0x02);
    Encoded(m, 0x07);
    Encoded(c, Low8(|pw| + 2));
    Join(0x8A, 0x02, [0x07, 0x80]);
    Regroup(0xAC, Low8(|pw| + 2), 0x80, Low8(|pw|), pw);
  }

  lemma ChildrenEncoded(password: Option<seq<byte>>)
    requires password.Some? ==> |password.value| < 0xFE
    ensures |Aarq(password)| == 2 + ContentLen(password)
    ensures Aarq(password)[2..] == EncodeAll(Children(password))
  {
    hide Low8, Val, EncodeAll, Encode;
    LiteralLengths();
    var a, z := Tlv(0xA1, APP_CONTEXT_SN), Tlv(0xBE, USER_INFO);
    Encoded(a, 0x09);
    Encoded(z, 0x10);
    assert Aarq(password)[2..] == Encode(a) + Authentication(password) + Encode(z);
    match password
    case None =>
      EncodeTwo(a, z);
      assert Children(password) == [a, z];
      assert Encode(a) + [] == Encode(a);
    case Some(pw) =>
      var r, m, c := Tlv(0x8A, [0x07, 0x80]), Tlv(0x8B, AUTH_MECHANISM_LOW_SN), Tlv(0xAC, [0x80, Low8(|pw|)] + pw);
      AuthenticationEncoded(pw, r, m, c);
      EncodeFive(a, r, m, c, z);
      assert Children(password) == [a, r, m, c, z];
  }

  /** For every password the configuration can hold the request is one TLV with a true short-form length whose
      children tile its content exactly, and the password can be read back from them. */
  lemma AarqTiles(password: Option<seq<byte>>)
    requires password.Some? ==> |password.value| <= MAX_PASSWORD_LEN
    ensures var s := Aarq(password);
      && s[0] == TAG_AARQ && s[1] < 0x80 && Val(s[1]) == |s| - 2
      && Tile(s[2..]) == Some(Children(password))
      && (password.Some? ==>
          var c := Children(password)[3];
          c.tag == 0xAC && Val(c.value[1]) == |password.value| && c.value[2..] == password.value)
  {
    hide Low8, Encode, EncodeAll;
    ChildrenEncoded(password);
    TileEncoded(Children(password));
    ShortLength(ContentLen(password));
    if password.Some? { ShortLength(|password.value|); }
  }

  /** With longer passwords than the configuration allows, the length octet stays a true short form exactly up
      to 81 octets. */
  lemma LengthOctetTrueIff(pw: seq<byte>)
    ensures var s := Aarq(Some(pw)); s[1] < 0x80 && Val(s[1]) == |s| - 2 <==> |pw| <= 81
  {
    hide Low8, Val;
    var n := ContentLen(Some(pw));
    assert Val(Low8(n)) == n % 256;
    ShortOctet(Low8(n));
  }

  lemma ConstantParts()
    ensures [0xA1, 0x09] + APP_CONTEXT_SN == [0xA1, 0x09, 0x06, 0x07, 0x60, 0x85, 0x74, 0x05, 0x08, 0x01, 0x02]
    ensures [0x8B, 0x07] + AUTH_MECHANISM_LOW_SN == [0x8B, 0x07, 0x60, 0x85, 0x74, 0x05, 0x08, 0x02, 0x01]
    ensures [0xBE, 0x10] + USER_INFO
      == [0xBE, 0x10, 0x04, 0x0E, 0x01, 0x00, 0x00, 0x00, 0x06, 0x5F, 0x1F, 0x04, 0x00, 0x1C, 0x03, 0x20, 0xFF, 0xFF]
  {
  }

  lemma TwentyNine()
    ensures Low8(29) == 0x1D
  {
    hide Low8;
    assert Val(0x1D) == 29;
    LowLiteral(29, 0x1D);
  }

  lemma TwoParts<T>(h: seq<T>, a: seq<T>, u: seq<T>)
    ensures h + (a + [] + u) == h + a + u
  {
  }

  /** The request without authentication, octet by octet. */
  lemma AarqOctets()
    ensures Aarq(None) ==
      [0x60, 0x1D] + [0xA1, 0x09, 0x06, 0x07, 0x60, 0x85, 0x74, 0x05, 0x08, 0x01, 0x02]
      + [0xBE, 0x10, 0x04, 0x0E, 0x01, 0x00, 0x00, 0x00, 0x06, 0x5F, 0x1F, 0x04, 0x00, 0x1C, 0x03, 0x20, 0xFF, 0xFF]
  {
    hide Low8;
    TwentyNine();
    ConstantParts();
    TwoParts([0x60, 0x1D], [0xA1, 0x09] + APP_CONTEXT_SN, [0xBE, 0x10] + USER_INFO);
  }

  lemma FourParts<T>(h: seq<T>, a: seq<T>, r: seq<T>, m: seq<T>, c: seq<T>, p: seq<T>, u: seq<T>)
    ensures h + (a + (r + m + (c + p)) + u) == h + a + r + m + c + p + u
  {
  }

  /** And with a password: its length, increased by 46, by 2 and as it is, stands in three places. */
  lemma AarqPasswordOctets(pw: seq<byte>, n: byte, m: byte, k: byte)
    requires Val(n) == 46 + |pw| && Val(m) == 2 + |pw| && Val(k) == |pw|
    ensures Aarq(Some(pw)) ==
      [0x60, n] + [0xA1, 0x09, 0x06, 0x07, 0x60, 0x85, 0x74, 0x05, 0x08, 0x01, 0x02] + [0x8A, 0x02, 0x07, 0x80]
      + [0x8B, 0x07, 0x60, 0x85, 0x74, 0x05, 0x08, 0x02, 0x01] + [0xAC, m, 0x80, k] + pw
      + [0xBE, 0x10, 0x04, 0x0E, 0x01, 0x00, 0x00, 0x00, 0x06, 0x5F, 0x1F, 0x04, 0x00, 0x1C, 0x03, 0x20, 0xFF, 0xFF]
  {
    hide Low8, Val;
    LowLiteral(46 + |pw|, n);
    LowLiteral(2 + |pw|, m);
    LowLiteral(|pw|, k);
    ConstantParts();
    FourParts([0x60, n], [0xA1, 0x09] + APP_CONTEXT_SN, [0x8A, 0x02, 0x07, 0x80], [0x8B, 0x07] + AUTH_MECHANISM_LOW_SN,
              [0xAC, m, 0x80, k], pw, [0xBE, 0x10] + USER_INFO);
  }

  // ---------- The response ----------

  /** The scan of `parse_aare` from a position on. */
  function Accepts(apdu: seq<byte>, pos: nat): bool
    decreases |apdu| - pos
  {
    if pos + 2 >= |apdu| then false
    else
      var tlen := Val(apdu[pos + 1]);
      if apdu[pos] == TAG_RESULT && pos + 2 + tlen <= |apdu| && tlen >= 3 then apdu[pos + 4] == 0
      else Accepts(apdu, pos + 2 + tlen)
  }

  predicate AareAccepted(apdu: seq<byte>) { |apdu| >= 2 && apdu[0] == TAG_AARE && Accepts(apdu, 2) }

  /** `parse_aare`; it stays inside its input and stops on every one. */
  method ParseAare(apdu: seq<byte>) returns (ok: bool)
    ensures ok <==> AareAccepted(apdu)
  {
    hide Val;
    if |apdu| < 2 || apdu[0] != TAG_AARE { return false; }
    var pos := 2;
    while pos + 2 < |apdu|
      invariant 2 <= pos
      invariant Accepts(apdu, pos) == Accepts(apdu, 2)
      decreases |apdu| - pos
    {
      var tag := apdu[pos];
      var tlen := Val(apdu[pos + 1]);
      if tag == TAG_RESULT {
        if pos + 2 + tlen <= |apdu| && tlen >= 3 {
          var result := apdu[pos + 4];
          return result == 0;
        }
      }
      pos := pos + 2 + tlen;
    }
    return false;
  }

  /** The first association result among the children. */
  function FirstResult(ts: seq<Tlv>): Option<byte> {
    if ts == [] then None
    else if ts[0].tag == TAG_RESULT && |ts[0].value| >= 3 then Some(ts[0].value[2])
    else FirstResult(ts[1..])
  }

  /** The scan at a TLV that lies in the response in full. */
  lemma AcceptsAt(apdu: seq<byte>, pos: nat, t: Tlv)
    requires pos + 2 + |t.value| <= |apdu| && |t.value| < 0x100
    requires apdu[pos] == t.tag && apdu[pos + 1] == Low8(|t.value|)
    requires apdu[pos + 2..pos + 2 + |t.value|] == t.value
    ensures Accepts(apdu, pos) <==>
      if pos + 2 >= |apdu| then false
      else if t.tag == TAG_RESULT && |t.value| >= 3 then t.value[2] == 0
      else Accepts(apdu, pos + 2 + |t.value|)
  {
    hide Low8, Val;
    ShortLength(|t.value|);
    if |t.value| >= 3 { assert apdu[pos + 2..pos + 2 + |t.value|][2] == apdu[pos + 4]; }
  }

  lemma AcceptsNothing(apdu: seq<byte>, pos: nat)
    requires pos + 2 >= |apdu|
    ensures !Accepts(apdu, pos)
  {
  }

  lemma Located<T>(before: seq<T>, s: seq<T>, n: nat)
    requires 2 <= n <= |s|
    ensures var all := before + s;
      all[|before|] == s[0] && all[|before| + 1] == s[1] && all[|before| + 2..|before| + n] == s[2..n]
  {
  }

  lemma EncodedSize(t: Tlv)
    ensures |Encode(t)| == 2 + |t.value|
  {
  }

  lemma {:induction false} AtLeastTwoEach(ts: seq<Tlv>)
    ensures |EncodeAll(ts)| >= 2 * |ts|
  {
    if ts != [] { AtLeastTwoEach(ts[1..]); }
  }

  lemma NoResultInEmpty(ts: seq<Tlv>, t: Tlv)
    requires ts != [] && ts[0] == t && |Encode(t) + EncodeAll(ts[1..])| <= 2
    ensures FirstResult(ts) == None
  {
    AtLeastTwoEach(ts[1..]);
    assert ts[1..] == [];
  }

  lemma {:induction false} AcceptsFirstResult(before: seq<byte>, ts: seq<Tlv>)
    requires forall k :: 0 <= k < |ts| ==> |ts[k].value| < 0x100
    ensures Accepts(before + EncodeAll(ts), |before|) <==> FirstResult(ts) == Some(0)
    decreases |ts|
  {
    hide Encode, Low8, Val, Accepts;
    if ts == [] {
      AcceptsNothing(before + [], |before|);
    } else {
      var t, rest := ts[0], EncodeAll(ts[1..]);
      var s := Encode(t) + rest;
      TlvParts(t, rest);
      EncodedSize(t);
      Located(before, s, 2 + |t.value|);
      Assoc(before, Encode(t), rest);
      AcceptsAt(before + s, |before|, t);
      AcceptsFirstResult(before + Encode(t), ts[1..]);
      if |before + s| <= |before| + 2 { NoResultInEmpty(ts, t); }
    }
  }

  /** A response made of TLVs is accepted exactly when its first association result, the value `02 01 r` under
      the tag A2, carries r = 0. */
  lemma AcceptedIffFirstResultZero(len: byte, ts: seq<Tlv>)
    requires forall k :: 0 <= k < |ts| ==> |ts[k].value| < 0x100
    ensures AareAccepted([TAG_AARE, len] + EncodeAll(ts)) <==> FirstResult(ts) == Some(0)
  {
    AcceptsFirstResult([TAG_AARE, len], ts);
  }

  lemma ThreeOctets()
    ensures Low8(3) == 0x03
  {
    hide Low8;
    assert Val(0x03) == 3;
    LowLiteral(3, 0x03);
  }

  lemma ResultAt(head: seq<byte>, r: byte, rest: seq<byte>)
    ensures Accepts(head + ([0xA2, 0x03, 0x02, 0x01, r] + rest), |head|) <==> r == 0
  {
    hide Val, Low8, Accepts;
    var t := Tlv(0xA2, [0x02, 0x01, r]);
    ThreeOctets();
    var s := [0xA2, 0x03, 0x02, 0x01, r] + rest;
    Located(head, s, 5);
    assert s[2..5] == t.value;
    AcceptsAt(head + s, |head|, t);
  }

  lemma {:induction false} AcceptsBehind(head: seq<byte>, before: seq<Tlv>, r: byte, rest: seq<byte>)
    requires forall k :: 0 <= k < |before| ==>
      |before[k].value| < 0x100 && (before[k].tag == 0xA2 ==> |before[k].value| < 3)
    ensures Accepts(head + (EncodeAll(before) + ([0xA2, 0x03, 0x02, 0x01, r] + rest)), |head|) <==> r == 0
    decreases |before|
  {
    hide Encode, Low8, Val, Accepts;
    var tail := [0xA2, 0x03, 0x02, 0x01, r] + rest;
    if before == [] {
      ResultAt(head, r, rest);
      assert EncodeAll(before) + tail == tail;
    } else {
      var t, more := before[0], EncodeAll(before[1..]) + tail;
      TlvParts(t, more);
      EncodedSize(t);
      Located(head, Encode(t) + more, 2 + |t.value|);
      Assoc(head, Encode(t), more);
      Assoc(Encode(t), EncodeAll(before[1..]), tail);
      AcceptsAt(head + (Encode(t) + more), |head|, t);
      AcceptsBehind(head + Encode(t), before[1..], r, rest);
    }
  }

  /** A response, 61 and a length octet, is accepted if the association result A2 03 02 01 r behind any other TLVs has
      r = 0, and not otherwise, whatever follows. */
  lemma ResultDecides(len: byte, before: seq<Tlv>, r: byte, rest: seq<byte>)
    requires forall k :: 0 <= k < |before| ==>
      |before[k].value| < 0x100 && (before[k].tag == 0xA2 ==> |before[k].value| < 3)
    ensures AareAccepted([0x61, len] + (EncodeAll(before) + ([0xA2, 0x03, 0x02, 0x01, r] + rest))) <==> r == 0
    ensures forall apdu :: AareAccepted(apdu) ==> |apdu| >= 2 && apdu[0] == 0x61
  {
    hide Accepts;
    AcceptsBehind([0x61, len], before, r, rest);
  }

  // ---------- Reading by short name ----------

  /** A read request for one short name. */
  function ReadRequest(shortName: bv16): (s: seq<byte>)
    ensures |s| == 5
  {
    [0x05, 0x01, 0x02, Low(High(shortName)), Low(shortName)]
  }

  lemma Reassembled(w: bv16)
    ensures (Low(High(w)) as bv16 << 8) | (Low(w) as bv16) == w
  {
  }

  /** 05 01 02 and the short name, its upper octet first; so different names make different requests. */
  lemma ReadRequestOctets(shortName: bv16, other: bv16)
    ensures var s := ReadRequest(shortName);
      s[..3] == [0x05, 0x01, 0x02] && 256 * Val(s[3]) + Val(s[4]) == shortName as int
    ensures ReadRequest(shortName) == ReadRequest(other) <==> shortName == other
  {
    hide Low, High, Val;
    WordValue(shortName);
    Reassembled(shortName);
    Reassembled(other);
    var s, t := ReadRequest(shortName), ReadRequest(other);
    assert s == t ==> s[3] == t[3] && s[4] == t[4];
  }

  lemma FiveJoin<T>(a: T, b: T, c: T, d: T, e: T)
    ensures [] + [a] + [b] + [c] + [d] + [e] == [a, b, c, d, e]
  {
  }

  /** `build_read_request_sn` */
  method BuildReadRequest(out: array<byte>, shortName: bv16) returns (pos: nat)
    requires 5 <= out.Length
    modifies out
    ensures pos == 5 && Written(out[..], ReadRequest(shortName), old(out[..]))
  {
    hide Written, Low, High;
    ghost var was := out[..];
    Untouched(was);
    pos := Put(out, 0, 0x05, [], was);
    pos := Put(out, pos, 0x01, [] + [0x05], was);
    pos := Put(out, pos, 0x02, [] + [0x05] + [0x01], was);
    pos := Put(out, pos, Low(High(shortName)), [] + [0x05] + [0x01] + [0x02], was);
    pos := Put(out, pos, Low(shortName), [] + [0x05] + [0x01] + [0x02] + [Low(High(shortName))], was);
    FiveJoin(0x05, 0x01, 0x02, Low(High(shortName)), Low(shortName));
  }
}
