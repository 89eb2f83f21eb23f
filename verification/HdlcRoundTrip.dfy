/** Parsing undoes building, and what every accepted frame looks like. */
module HdlcRoundTrip {
  import opened Bytes
  import opened Fcs16
  import opened Hdlc
  import opened HdlcParser

  const MAX_FRAME_LEN := 2047

  // ---------- Single octets ----------

  lemma AddressOctetEnds(bits: bv16, last: bool)
    ensures Ends(AddressOctet(bits, last)) <==> last
  {
  }

  lemma ClientOctetEnds(r: Route)
    ensures Ends(ClientOctet(r))
  {
  }

  lemma SmallOctet(x: byte)
    requires Val(x) < 8
    ensures x < 8
  {
  }

  lemma FormatBits(x: byte)
    requires x < 8
    ensures (FORMAT_TYPE | x) & 0xF0 == FORMAT_TYPE && (FORMAT_TYPE | x) & 7 == x && FORMAT_TYPE | x != FLAG
  {
  }

  lemma SmallLow8(k: nat)
    requires k < 8
    ensures Low8(k) < 8 && Val(Low8(k)) == k
  {
    hide Low8;
    var x := Low8(k);
    SmallOctet(x);
  }

  lemma FormatOctetBits(n: nat)
    ensures FormatOctet(n) & 0xF0 == FORMAT_TYPE && FormatOctet(n) != FLAG
    ensures FormatOctet(n) & 7 == Low8((n / 256) % 8)
  {
    hide Low8;
    SmallLow8((n / 256) % 8);
    FormatBits(Low8((n / 256) % 8));
  }

  lemma FormatOctetFields(n: nat)
    requires n <= MAX_FRAME_LEN
    ensures FormatOctet(n) & 0xF0 == FORMAT_TYPE && FormatOctet(n) != FLAG
    ensures Val(FormatOctet(n) & 7) * 256 + Val(Low8(n % 256)) == n
  {
    hide FormatOctet, Low8;
    FormatOctetBits(n);
    SmallLow8((n / 256) % 8);
    assert Val(FormatOctet(n) & 7) == n / 256;
    assert Val(Low8(n % 256)) == n % 256;
  }

  lemma ControlFields(sendSeq: byte, recvSeq: byte)
    requires sendSeq < 8 && recvSeq < 8
    ensures var c := IControl(sendSeq, recvSeq); IsI(c) && SendSeq(c) == sendSeq && RecvSeq(c) == recvSeq
  {
  }

  lemma SmallControls(control: byte)
    ensures Val(control) % 16 == 1 ==> Val(control) % 2 == 1
    ensures control == 0x13 ==> control & 1 != 0 && control & 0x0F != 1
  {
  }

  /** What a control octet says, as a number. */
  lemma ControlMeaning(control: byte)
    ensures IsI(control) <==> Val(control) % 2 == 0
    ensures IsRr(control) <==> Val(control) % 16 == 1
    ensures IsUi(control) <==> control == 0x13
    ensures Val(SendSeq(control)) == Val(control) / 2 % 8
    ensures Val(RecvSeq(control)) == Val(control) / 32
  {
    Parity(control);
    LowFour(control);
    ZeroOrOne(control & 1);
    ZeroOrOne(control & 0x0F);
    ShiftedOne(control);
    LowThree(control >> 1);
    ShiftedFive(control);
    SmallControls(control);
  }

  // ---------- Addresses ----------

  /** The seven address bits of an octet. */
  function SevenBits(b: byte): bv16 { (b >> 1) as bv16 }

  function Joined(a: byte, b: byte): bv16 { (SevenBits(a) << 7) | SevenBits(b) }

  lemma OneOctet(addr: bv16, last: bool)
    ensures SevenBits(AddressOctet(addr, last)) == addr <==> addr < 0x80
  {
  }

  lemma TwoOctets(addr: bv16, last: bool)
    ensures Joined(AddressOctet(UpperSeven(addr), false), AddressOctet(LowerSeven(addr), last)) == addr
      <==> addr < 0x4000
  {
  }

  lemma ClientBits(r: Route)
    ensures ClientOctet(r) >> 1 == r.client <==> r.client < 0x80
  {
  }

  /** The address octets that the client writes say the addresses it was given, logical before physical, exactly when
      these fit: seven bits in one octet, fourteen in two, the upper seven first. */
  lemma AddressesReadBack(r: Route)
    ensures var a := AddressOctets(r);
      match r.addrLen
      case 1 => |a| == 1 && (SevenBits(a[0]) == r.logical <==> r.logical < 0x80)
      case 2 => |a| == 2 && (SevenBits(a[0]) == r.logical <==> r.logical < 0x80)
        && (SevenBits(a[1]) == r.physical <==> r.physical < 0x80)
      case 4 => |a| == 4 && (Joined(a[0], a[1]) == r.logical <==> r.logical < 0x4000)
        && (Joined(a[2], a[3]) == r.physical <==> r.physical < 0x4000)
      case _ => a == []
    ensures var s := Addressed(r).src; |s| == 1 && (s[0] >> 1 == r.client <==> r.client < 0x80)
  {
    hide SevenBits, Joined, AddressOctet, UpperSeven, LowerSeven, ClientOctet;
    OneOctet(r.logical, true);
    OneOctet(r.logical, false);
    OneOctet(r.physical, true);
    TwoOctets(r.logical, false);
    TwoOctets(r.physical, true);
    ClientBits(r);
  }

  // ---------- Round trip ----------

  lemma SkipOne(data: seq<byte>, at: nat, limit: nat)
    requires at < limit <= |data|
    ensures SkipAddress(data, at, limit) == if Ends(data[at]) then at + 1 else SkipAddress(data, at + 1, limit)
  {
  }

  lemma {:induction false} SkipRun(data: seq<byte>, at: nat, end: nat, limit: nat)
    requires at < end <= limit <= |data|
    requires forall k :: at <= k < end ==> (Ends(data[k]) <==> k == end - 1)
    ensures SkipAddress(data, at, limit) == end
    decreases end - at
  {
    hide Ends;
    SkipOne(data, at, limit);
    if at + 1 < end { SkipRun(data, at + 1, end, limit); }
  }

  /** Of a built server address, only the last octet has its low bit set. */
  lemma ServerEnds(r: Route, i: nat)
    requires r.Supported() && i < r.addrLen
    ensures Ends(AddressOctets(r)[i]) <==> i == r.addrLen - 1
  {
    AddressOctetEnds(r.logical, false);
    AddressOctetEnds(r.logical, true);
    AddressOctetEnds(r.physical, true);
    AddressOctetEnds(UpperSeven(r.logical), false);
    AddressOctetEnds(LowerSeven(r.logical), false);
    AddressOctetEnds(UpperSeven(r.physical), false);
    AddressOctetEnds(LowerSeven(r.physical), true);
    hide AddressOctet, UpperSeven, LowerSeven, Ends;
  }

  /** The addresses of the frames that the client sends are address fields. */
  lemma RouteAddressed(r: Route)
    requires r.Supported()
    ensures WellAddressed(Addressed(r))
  {
    ClientOctetEnds(r);
    hide AddressOctets, ClientOctet, Ends;
    forall k | 0 <= k < r.addrLen ensures Ends(AddressOctets(r)[k]) <==> k == r.addrLen - 1 { ServerEnds(r, k); }
  }

  lemma SkipField(data: seq<byte>, at: nat, a: seq<byte>, limit: nat)
    requires IsAddress(a) && at + |a| <= limit <= |data| && data[at..at + |a|] == a
    ensures SkipAddress(data, at, limit) == at + |a|
  {
    hide Ends;
    forall k | at <= k < at + |a| ensures Ends(data[k]) <==> k == at + |a| - 1 {
      assert data[k] == data[at..at + |a|][k - at];
    }
    SkipRun(data, at, at + |a|, limit);
  }

  lemma WireLayout<T>(flag: T, f: T, l: T, dst: seq<T>, src: seq<T>, c: T, rest: seq<T>)
    ensures var h := [f, l] + dst + src + [c]; var w := [flag] + (h + rest);
      w[0] == flag && w[1] == f && w[2] == l && w[3..3 + |dst|] == dst && w[3 + |dst|..3 + |dst| + |src|] == src
      && w[|h|] == c && w[1..|h| + 1] == h && w[|h| + 1..] == rest
  {
    var h := [f, l] + dst + src + [c];
    var w := [flag] + (h + rest);
    assert w == ([flag, f, l] + dst) + (src + ([c] + rest));
    assert w[1..|h| + 1] == h;
    assert w[|h| + 1..] == rest;
  }

  lemma WireJoin<T>(flag: T, h: seq<T>, mid: seq<T>, t: seq<T>, d: seq<T>)
    requires d == h + mid
    ensures var w := [flag] + d + t + [flag]; w == [flag] + (h + (mid + t + [flag])) && w[1..|w| - 1] == d + t
  {
  }

  /** Between the flags of a frame: a covered part that starts with the header, and its check. */
  lemma WireParts(a: Addresses, control: byte, info: seq<byte>)
    ensures var w := Wire(a, control, info); var d := Covered(a, control, info); var n := FrameLen(a, |info|);
      |w| == n + 2 && w[0] == FLAG && w[|w| - 1] == FLAG
      && w[1] == FormatOctet(n) && w[2] == Low8(n % 256)
      && w[3..3 + |a.dst|] == a.dst && w[3 + |a.dst|..3 + |a.dst| + |a.src|] == a.src
      && w[HeaderLen(a)] == control
      && w[1..|w| - 1] == d + FcsOctets(d)
  {
    hide Low8, FormatOctet, FcsOctets;
    var n := FrameLen(a, |info|);
    var h := Header(a, control, |info|);
    var d := Covered(a, control, info);
    var mid := if info == [] then [] else FcsOctets(h) + info;
    var rest := mid + FcsOctets(d) + [FLAG];
    var w := Wire(a, control, info);
    WireLayout(FLAG, FormatOctet(n), Low8(n % 256), a.dst, a.src, control, rest);
    WireJoin(FLAG, h, mid, FcsOctets(d), d);
    assert w == [FLAG] + (h + rest);
  }

  lemma InfoJoin<T>(flag: T, h: seq<T>, t: seq<T>, info: seq<T>, u: seq<T>)
    requires |t| == 2 && |u| == 2
    ensures var w := [flag] + (h + t + info) + u + [flag];
      w[1..|h| + 3] == h + t && w[|h| + 3..|w| - 3] == info
  {
  }

  lemma WireInfo(a: Addresses, control: byte, info: seq<byte>)
    requires info != []
    ensures var w, h := Wire(a, control, info), Header(a, control, |info|);
      w[1..|h| + 3] == h + FcsOctets(h) && w[|h| + 3..|w| - 3] == info
  {
    hide Header, FcsOctets;
    InfoJoin(FLAG, Header(a, control, |info|), FcsOctets(Header(a, control, |info|)), info, FcsOctets(Covered(a,
      control, info)));
  }

  lemma FormatNumber(x: byte)
    requires x < 8
    ensures Val(FORMAT_TYPE | x) == 0xA0 + Val(x)
  {
  }

  lemma UpperThree(n: nat)
    requires n < 0x800
    ensures (n / 256) % 8 == n / 256 < 8
  {
  }

  lemma LowOfRest(n: nat)
    ensures Val(Low8(n % 256)) == n % 256
  {
    hide Val;
  }

  lemma FormatOctetNumber(n: nat)
    requires n < 0x800
    ensures Val(FormatOctet(n)) == 0xA0 + n / 256
  {
    hide Low8, Val;
    UpperThree(n);
    SmallLow8(n / 256);
    FormatNumber(Low8(n / 256));
  }

  /** Two octets are the check of some data, low octet first. */
  predicate IsCheckOf(t: seq<byte>, d: seq<byte>) { |t| == 2 && 256 * Val(t[1]) + Val(t[0]) == Crc16(d) as int }

  lemma FcsIsCheck(d: seq<byte>)
    ensures IsCheckOf(FcsOctets(d), d)
  {
    hide Crc16;
    WordValue(Crc16(d));
  }

  lemma SliceEnd<T>(s: seq<T>, d: seq<T>, t: seq<T>)
    requires |s| >= 2 && s[1..|s| - 1] == d + t && |t| == 2
    ensures s[1..|s| - 3] == d && s[|s| - 3..|s| - 1] == t
  {
    assert s[1..|s| - 1][..|d|] == d && s[1..|s| - 1][|d|..] == t;
  }

  lemma CheckSlices<T>(w: seq<T>, h: seq<T>, t: seq<T>)
    requires |h| + 3 <= |w| && w[1..|h| + 3] == h + t && |t| == 2
    ensures w[1..|h| + 1] == h && w[|h| + 1..|h| + 3] == t
  {
    assert w[1..|h| + 3][..|h|] == h && w[1..|h| + 3][|h|..] == t;
  }

  lemma LengthOctets(a: Addresses, control: byte, info: seq<byte>)
    requires FrameLen(a, |info|) <= MAX_FRAME_LEN
    ensures var w, n := Wire(a, control, info), FrameLen(a, |info|);
      Val(w[1]) == 0xA0 + n / 256 && Val(w[2]) == n % 256
  {
    hide Wire, Covered, FormatOctet, FcsOctets, Val;
    var n := FrameLen(a, |info|);
    WireParts(a, control, info);
    FormatOctetNumber(n);
    LowOfRest(n);
  }

  lemma WireFields(a: Addresses, control: byte, info: seq<byte>)
    ensures var w := Wire(a, control, info);
      |w| == FrameLen(a, |info|) + 2 && w[0] == 0x7E && w[|w| - 1] == 0x7E && w[HeaderLen(a)] == control
      && w[3..3 + |a.dst|] == a.dst && w[3 + |a.dst|..3 + |a.dst| + |a.src|] == a.src
  {
    hide Wire, Covered, FormatOctet, FcsOctets, Low8;
    WireParts(a, control, info);
  }

  lemma FrameCheck(a: Addresses, control: byte, info: seq<byte>)
    ensures var w := Wire(a, control, info); |w| >= 7 && IsCheckOf(w[|w| - 3..|w| - 1], w[1..|w| - 3])
  {
    hide Wire, Covered, FormatOctet, FcsOctets, Low8, IsCheckOf;
    var d := Covered(a, control, info);
    WireParts(a, control, info);
    SliceEnd(Wire(a, control, info), d, FcsOctets(d));
    FcsIsCheck(d);
  }

  lemma HeaderCheck(a: Addresses, control: byte, info: seq<byte>)
    requires info != []
    ensures var w, c := Wire(a, control, info), HeaderLen(a);
      |w| == c + |info| + 6 && IsCheckOf(w[c + 1..c + 3], w[1..c + 1]) && w[c + 3..|w| - 3] == info
  {
    hide Wire, Header, FcsOctets, IsCheckOf;
    var h := Header(a, control, |info|);
    WireInfo(a, control, info);
    CheckSlices(Wire(a, control, info), h, FcsOctets(h));
    FcsIsCheck(h);
  }

  /** A frame octet by octet: 7E, the format A0 with the upper three bits of the length, the rest of it, destination,
      source, control octet, where there is information a check over all this and the information, a check over
      everything behind the opening 7E, and 7E. */
  lemma FrameOctets(a: Addresses, control: byte, info: seq<byte>)
    requires FrameLen(a, |info|) <= MAX_FRAME_LEN
    ensures var w := Wire(a, control, info); var n, c, s := |w| - 2, 3 + |a.dst| + |a.src|, 3 + |a.dst|;
      && |w| == c + (if info == [] then 4 else |info| + 6)
      && w[0] == 0x7E && w[n + 1] == 0x7E && Val(w[1]) == 0xA0 + n / 256 && Val(w[2]) == n % 256
      && w[3..s] == a.dst && w[s..c] == a.src && w[c] == control
      && (info != [] ==> IsCheckOf(w[c + 1..c + 3], w[1..c + 1]) && w[c + 3..n - 1] == info)
      && IsCheckOf(w[n - 1..n + 1], w[1..n - 1])
  {
    hide Wire, Val, IsCheckOf;
    LengthOctets(a, control, info);
    FrameCheck(a, control, info);
    WireFields(a, control, info);
    if info != [] { HeaderCheck(a, control, info); }
  }

  lemma FrameControlAt(a: Addresses, control: byte, info: seq<byte>)
    requires WellAddressed(a)
    ensures ControlAt(Wire(a, control, info)) == HeaderLen(a)
  {
    WireParts(a, control, info);
    hide Wire, IsAddress, FormatOctet, FcsOctets, Low8, Covered, Header;
    var w := Wire(a, control, info);
    SkipField(w, 3, a.dst, |w| - 3);
    SkipField(w, 3 + |a.dst|, a.src, |w| - 3);
  }

  lemma TrailerVerifies(d: seq<byte>)
    ensures Verify(d + FcsOctets(d))
  {
    hide Verify, Crc16, Low, High;
    VerifyIffTrailer(d, Low(Crc16(d)), Low(High(Crc16(d))));
  }

  lemma FrameDelimited(a: Addresses, control: byte, info: seq<byte>)
    requires FrameLen(a, |info|) <= MAX_FRAME_LEN
    ensures Delimited(Wire(a, control, info))
  {
    WireParts(a, control, info);
    FormatOctetFields(FrameLen(a, |info|));
    hide Wire, FormatOctet, Low8, Covered, Header, FcsOctets;
  }

  lemma StripNothing()
    ensures StripLlc([]) == []
  {
  }

  lemma StripShortens(info: seq<byte>)
    ensures |StripLlc(info)| <= |info|
  {
  }

  /** Every type-3 frame with two address fields of any length and a length that its field can hold is accepted
      by the parser, which gives back the control octet and the information without its LLC headers: what either
      side sends. */
  lemma ParseWire(a: Addresses, control: byte, info: seq<byte>)
    requires WellAddressed(a) && FrameLen(a, |info|) <= MAX_FRAME_LEN
    ensures Parse(Wire(a, control, info)) == Some(Frame(control, StripLlc(info)))
  {
    hide Wire, Verify, Covered, Header, FormatOctet, FcsOctets, StripLlc, Delimited, Low8, IsAddress;
    FrameDelimited(a, control, info);
    WireParts(a, control, info);
    FrameControlAt(a, control, info);
    TrailerVerifies(Covered(a, control, info));
    TrailerVerifies(Header(a, control, |info|));
    if info == [] {
      StripNothing();
    } else {
      WireInfo(a, control, info);
      StripShortens(info);
    }
  }

  /** In particular every frame `build_frame` writes with a supported address length. */
  lemma ParseBuilt(r: Route, control: byte, info: seq<byte>)
    requires r.Supported() && FrameLen(Addressed(r), |info|) <= MAX_FRAME_LEN
    ensures Parse(Wire(Addressed(r), control, info)) == Some(Frame(control, StripLlc(info)))
  {
    hide Parse, Wire, WellAddressed;
    RouteAddressed(r);
    ParseWire(Addressed(r), control, info);
  }

  /** The headers E6 E7 00, E6 E6 00 and E0 x 00 go, each with an E0 x 00 behind it. */
  lemma StripHeader(llc: seq<byte>, apdu: seq<byte>)
    requires llc == [0xE6, 0xE7, 0x00] || llc == [0xE6, 0xE6, 0x00] || (|llc| == 3 && llc[0] == 0xE0 && llc[2] == 0x00)
    ensures StripLlc(llc + apdu) == if |apdu| >= 3 && apdu[0] == 0xE0 && apdu[2] == 0x00 then apdu[3..] else apdu
  {
    var info := llc + apdu;
    assert info[0] == llc[0] && info[1] == llc[1] && info[2] == llc[2];
    assert info[3..] == apdu;
  }

  /** Nothing else does. */
  lemma NoHeaderKept(info: seq<byte>)
    requires |info| >= 3 ==> info[..3] != [0xE6, 0xE7, 0x00] && info[..3] != [0xE6, 0xE6, 0x00]
    requires |info| >= 3 ==> !(info[0] == 0xE0 && info[2] == 0x00)
    ensures StripLlc(info) == info
  {
    if |info| >= 3 { assert info[..3] == [info[0], info[1], info[2]]; }
  }

  lemma StripIframe(apdu: seq<byte>)
    ensures StripLlc(IframeInfo(apdu)) == if HasQuirk(apdu) then apdu[3..] else apdu
  {
    StripHeader([LLC_DSAP, LLC_DSAP, LLC_CONTROL], apdu);
  }

  /** An I-frame comes back with its sequence numbers and its APDU, except for an APDU that looks like the
      E450's second LLC header: that loses its first three octets. */
  lemma IframeRoundTrip(r: Route, sendSeq: byte, recvSeq: byte, apdu: seq<byte>)
    requires r.Supported() && sendSeq < 8 && recvSeq < 8 && |apdu| <= 509
    ensures var p := Parse(WireIframe(r, sendSeq, recvSeq, apdu));
      && p.Some? && IsI(p.value.control)
      && SendSeq(p.value.control) == sendSeq && RecvSeq(p.value.control) == recvSeq
      && p.value.info == if |apdu| >= 3 && apdu[0] == 0xE0 && apdu[2] == 0x00 then apdu[3..] else apdu
  {
    hide Wire, StripLlc, IControl;
    ParseBuilt(r, IControl(sendSeq, recvSeq), IframeInfo(apdu));
    StripIframe(apdu);
    ControlFields(sendSeq, recvSeq);
  }

  /** SNRM and DISC come back as they were sent, neither taken for an I-frame, RR nor UI. */
  lemma ControlFramesRoundTrip(r: Route)
    requires r.Supported()
    ensures Parse(Wire(Addressed(r), CTRL_SNRM, SNRM_INFO)) == Some(Frame(CTRL_SNRM, SNRM_INFO))
    ensures Parse(Wire(Addressed(r), CTRL_DISC, [])) == Some(Frame(CTRL_DISC, []))
    ensures forall c :: c == CTRL_SNRM || c == CTRL_DISC ==> !IsI(c) && !IsRr(c) && !IsUi(c)
  {
    hide Wire;
    ParseBuilt(r, CTRL_SNRM, SNRM_INFO);
    ParseBuilt(r, CTRL_DISC, []);
  }

  // ---------- Where the control octet is ----------

  /** How many octets have their low bit set. */
  function Ended(s: seq<byte>): nat { if s == [] then 0 else (if Val(s[0]) % 2 == 1 then 1 else 0) + Ended(s[1..]) }

  lemma {:induction false} EndedConcat(s: seq<byte>, t: seq<byte>)
    ensures Ended(s + t) == Ended(s) + Ended(t)
  {
    hide Val;
    if s == [] {
      assert s + t == t;
    } else {
      assert (s + t)[0] == s[0] && (s + t)[1..] == s[1..] + t;
      EndedConcat(s[1..], t);
    }
  }

  lemma EndsMeaning(b: byte)
    ensures Ends(b) <==> Val(b) % 2 == 1
  {
    Parity(b);
    ZeroOrOne(b & 1);
  }

  lemma {:induction false} SkipEnded(data: seq<byte>, at: nat, limit: nat)
    requires at <= limit <= |data|
    ensures var j := SkipAddress(data, at, limit);
      if Ended(data[at..j]) == 1 then j > at && Val(data[j - 1]) % 2 == 1 else j == limit && Ended(data[at..j]) == 0
    decreases limit - at
  {
    hide Val, Ends;
    if at < limit {
      SkipOne(data, at, limit);
      EndsMeaning(data[at]);
      var j := SkipAddress(data, at, limit);
      assert data[at..j][1..] == data[at + 1..j];
      if Ends(data[at]) { assert data[at..j] == [data[at]]; } else { SkipEnded(data, at + 1, limit); }
    }
  }

  /** The control octet is read behind the second octet with its low bit set, counted behind format and length, or,
      when there are not two, from the first octet of the frame check. */
  lemma ControlPlace(data: seq<byte>)
    requires |data| >= 6
    ensures var c := ControlAt(data);
      && 3 <= c <= |data| - 3
      && if Ended(data[3..c]) == 2 then Val(data[c - 1]) % 2 == 1 else c == |data| - 3 && Ended(data[3..c]) < 2
  {
    hide Val, SkipAddress, Ended;
    var limit := |data| - 3;
    var j := SkipAddress(data, 3, limit);
    var c := ControlAt(data);
    SkipEnded(data, 3, limit);
    SkipEnded(data, j, limit);
    assert data[3..c] == data[3..j] + data[j..c];
    EndedConcat(data[3..j], data[j..c]);
  }

  // ---------- Soundness ----------

  lemma LastTwo<T>(d: seq<T>)
    requires |d| >= 2
    ensures d == d[..|d| - 2] + [d[|d| - 2], d[|d| - 1]]
  {
  }

  lemma VerifiedHasTrailer(d: seq<byte>)
    requires |d| >= 2 && Verify(d)
    ensures d == d[..|d| - 2] + FcsOctets(d[..|d| - 2])
  {
    var c, a, b := d[..|d| - 2], d[|d| - 2], d[|d| - 1];
    hide Verify, Crc16, Low, High;
    LastTwo(d);
    VerifyIffTrailer(c, a, b);
    assert FcsOctets(c) == [a, b];
  }

  lemma Inside<T>(data: seq<T>, c: nat)
    requires |data| >= 5 && 3 <= c
    ensures var d := data[1..|data| - 3];
      && data[1..|data| - 1][..|data| - 4] == d
      && data == [data[0]] + data[1..|data| - 1] + [data[|data| - 1]]
      && (c + 6 <= |data| ==>
          data[1..c + 3][..c] == d[..c] && data[1..c + 3] == d[..c + 2] && data[c + 3..|data| - 3] == d[c + 2..])
      && (c + 4 == |data| ==> data[c] == d[|d| - 1])
  {
  }

  /** Flags around a covered part and its correct check, a true length field, and after the control octet either
      nothing (no information) or a correct header check and the information. In the one remaining case the
      address octets run to the end of the covered part and the control octet is read from the frame check. */
  predicate Shaped(data: seq<byte>, f: Frame) {
    |data| >= 6
    && var d, c := data[1..|data| - 3], ControlAt(data);
    data == [FLAG] + d + FcsOctets(d) + [FLAG]
    && data[1] & 0xF0 == FORMAT_TYPE && LengthField(data) == |d| + 2
    && if c == |d| then f == Frame(d[|d| - 1], [])
       else if c == |d| + 1 then f == Frame(FcsOctets(d)[0], [])
       else c + 2 <= |d| && d[..c + 2] == d[..c] + FcsOctets(d[..c]) && f == Frame(d[c - 1], StripLlc(d[c + 2..]))
  }

  lemma FormatChoices(x: byte)
    requires x & 0xF0 == FORMAT_TYPE && x & 7 == 0
    ensures x == 0xA0 || x == 0xA8
  {
  }

  lemma ShortFcs()
    ensures Low(Crc16([0xA0])) != 3 && Low(Crc16([0xA8])) != 3
  {
    assert Run(INITIAL, [0xA0]) == Run(TableStep(INITIAL, 0xA0), []) == TableStep(INITIAL, 0xA0);
    assert Run(INITIAL, [0xA8]) == Run(TableStep(INITIAL, 0xA8), []) == TableStep(INITIAL, 0xA8);
  }

  /** The shortest string the first test of the parser lets through is never accepted: its length octet
      would have to be the check of its format octet. */
  lemma FiveOctetsRefused(data: seq<byte>)
    requires |data| == 5
    ensures Parse(data).None?
  {
    if Parse(data).Some? {
      var d := data[1..4];
      VerifiedHasTrailer(d);
      assert d[..1] == [data[1]];
      assert d[1] == data[2] == Low(Crc16([data[1]]));
      assert data[1] & 7 == 0 && data[2] == 3;
      FormatChoices(data[1]);
      ShortFcs();
    }
  }

  lemma AcceptedFraming(data: seq<byte>)
    requires Parse(data).Some?
    ensures |data| >= 6 && var d := data[1..|data| - 3];
      data == [FLAG] + d + FcsOctets(d) + [FLAG] && data[1] & 0xF0 == FORMAT_TYPE && LengthField(data) == |d| + 2
  {
    hide Verify, FcsOctets, StripLlc, ControlAt, LengthField;
    if |data| == 5 { FiveOctetsRefused(data); }
    VerifiedHasTrailer(data[1..|data| - 1]);
    Inside(data, 3);
  }

  lemma AcceptedHeader(data: seq<byte>, c: nat)
    requires |data| >= 6 && 3 <= c && c + 6 <= |data| && Verify(data[1..c + 3])
    ensures var d := data[1..|data| - 3];
      d[..c + 2] == d[..c] + FcsOctets(d[..c]) && data[c + 3..|data| - 3] == d[c + 2..] && data[c] == d[c - 1]
  {
    hide Verify, FcsOctets;
    Inside(data, c);
    VerifiedHasTrailer(data[1..c + 3]);
  }

  lemma Flanked<T>(flag: T, d: seq<T>, t: seq<T>)
    requires |t| == 2
    ensures var w := [flag] + d + t + [flag];
      && w[0] == flag && w[|w| - 1] == flag
      && w[1..|w| - 1] == d + t && w[|d| + 1] == t[0]
  {
  }

  lemma AcceptedIsShaped(data: seq<byte>)
    requires Parse(data).Some?
    ensures Shaped(data, Parse(data).value)
  {
    hide Verify, FcsOctets, StripLlc, ControlAt, LengthField;
    AcceptedFraming(data);
    var c := ControlAt(data);
    var d := data[1..|data| - 3];
    Flanked(FLAG, d, FcsOctets(d));
    if |data| - 2 > c + 2 {
      InfoLengthNeverUnderflows(data, c);
      AcceptedHeader(data, c);
    }
  }

  lemma LengthFieldBound(data: seq<byte>)
    requires |data| >= 3
    ensures LengthField(data) <= MAX_FRAME_LEN
  {
    LowThree(data[1]);
  }

  lemma ShapedIsAccepted(data: seq<byte>, f: Frame)
    requires Shaped(data, f)
    ensures Parse(data) == Some(f)
  {
    hide Verify, FcsOctets, StripLlc, ControlAt, LengthField;
    var c := ControlAt(data);
    var d := data[1..|data| - 3];
    LengthFieldBound(data);
    TrailerVerifies(d);
    Flanked(FLAG, d, FcsOctets(d));
    Inside(data, c);
    if c + 2 <= |d| {
      TrailerVerifies(d[..c]);
      StripShortens(d[c + 2..]);
    }
  }

  /** The parser accepts a string, for any string, exactly when it is so shaped, and gives back what it shows. */
  lemma AcceptedShape(data: seq<byte>, f: Frame)
    ensures Parse(data) == Some(f) <==> Shaped(data, f)
  {
    hide Parse, Shaped;
    if Parse(data).Some? { AcceptedIsShaped(data); }
    if Shaped(data, f) { ShapedIsAccepted(data, f); }
  }
}
