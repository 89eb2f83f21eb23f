/** Type-3 HDLC frames as `dlms_hdlc.c` builds and parses them. */
module Hdlc {
  import opened Bytes
  import opened Fcs16
  import opened Buffers

  const FLAG: byte := 0x7E
  const FORMAT_TYPE: byte := 0xA0
  const CTRL_SNRM: byte := 0x93
  const CTRL_DISC: byte := 0x53
  const LLC_DSAP: byte := 0xE6
  const LLC_RESPONSE_SSAP: byte := 0xE7
  const LLC_CONTROL: byte := 0x00
  const TX_BUFFER_SIZE := 512
  const INFO_CAPACITY := 2048
  const SNRM_INFO: seq<byte> :=
    [0x81, 0x80, 0x12, 0x05, 0x01, 0x80, 0x06, 0x01, 0x80, 0x07, 0x04, 0x00, 0x00, 0x00, 0x01, 0x08, 0x04, 0x00,
      0x00, 0x00, 0x01]

  /** The addressing part of the client configuration. */
  datatype Route = Route(client: byte, logical: bv16, physical: bv16, addrLen: nat) {
    predicate Supported() { addrLen == 1 || addrLen == 2 || addrLen == 4 }
  }

  // ---------- The wire format ----------

  /** Seven address bits and the extension bit, set on the last octet only. */
  function AddressOctet(bits: bv16, last: bool): byte { Low(if last then (bits << 1) | 1 else bits << 1) }

  function UpperSeven(addr: bv16): bv16 { (addr >> 7) & 0x7F }

  function LowerSeven(addr: bv16): bv16 { addr & 0x7F }

  function AddressOctets(r: Route): (a: seq<byte>)
    ensures |a| == if r.Supported() then r.addrLen else 0
  {
    if r.addrLen == 1 then [AddressOctet(r.logical, true)]
    else if r.addrLen == 2 then [AddressOctet(r.logical, false), AddressOctet(r.physical, true)]
    else if r.addrLen == 4 then
      [AddressOctet(UpperSeven(r.logical), false), AddressOctet(LowerSeven(r.logical), false),
       AddressOctet(UpperSeven(r.physical), false), AddressOctet(LowerSeven(r.physical), true)]
    else []
  }

  function ClientOctet(r: Route): byte { (r.client << 1) | 1 }

  /** The address fields of a frame, destination first. */
  datatype Addresses = Addresses(dst: seq<byte>, src: seq<byte>)

  /** Those of a frame that the client sends. */
  function Addressed(r: Route): Addresses { Addresses(AddressOctets(r), [ClientOctet(r)]) }

  function HeaderLen(a: Addresses): nat { 2 + |a.dst| + |a.src| + 1 }

  /** The value of the length field: everything between the flags. */
  function FrameLen(a: Addresses, infoLen: nat): nat {
    HeaderLen(a) + if infoLen > 0 then 2 + infoLen + 2 else 2
  }

  function FormatOctet(frameLen: nat): byte { FORMAT_TYPE | Low8((frameLen / 256) % 8) }

  function Header(a: Addresses, control: byte, infoLen: nat): (h: seq<byte>)
    ensures |h| == HeaderLen(a)
  {
    var n := FrameLen(a, infoLen);
    [FormatOctet(n), Low8(n % 256)] + a.dst + a.src + [control]
  }

  function FcsOctets(d: seq<byte>): (t: seq<byte>)
    ensures |t| == 2
  {
    [Low(Crc16(d)), Low(High(Crc16(d)))]
  }

  /** What the frame check covers: the header and, when there is information, the header check and the information. */
  function Covered(a: Addresses, control: byte, info: seq<byte>): seq<byte> {
    var h := Header(a, control, |info|);
    if info == [] then h else h + FcsOctets(h) + info
  }

  /** A type-3 frame. */
  function Wire(a: Addresses, control: byte, info: seq<byte>): (w: seq<byte>)
    ensures |w| == FrameLen(a, |info|) + 2
  {
    var d := Covered(a, control, info);
    [FLAG] + d + FcsOctets(d) + [FLAG]
  }

  function IControl(sendSeq: byte, recvSeq: byte): byte { (sendSeq << 1) | (recvSeq << 5) | 0x10 }

  function IframeInfo(apdu: seq<byte>): seq<byte> { [LLC_DSAP, LLC_DSAP, LLC_CONTROL] + apdu }

  function WireIframe(r: Route, sendSeq: byte, recvSeq: byte, apdu: seq<byte>): seq<byte> {
    Wire(Addressed(r), IControl(sendSeq, recvSeq), IframeInfo(apdu))
  }

  // ---------- Building ----------

  /** `dlms_hdlc_encode_address` */
  method EncodeAddress(out: array<byte>, at: nat, r: Route, ghost done: seq<byte>, ghost was: seq<byte>)
    returns (n: nat)
    requires at + |AddressOctets(r)| <= out.Length && |done| == at && Written(out[..], done, was)
    modifies out
    ensures n == |AddressOctets(r)|
    ensures Written(out[..], done + AddressOctets(r), was)
  {
    hide AddressOctet, UpperSeven, LowerSeven, Written;
    ghost var a := AddressOctets(r);
    if r.addrLen == 1 {
      n := Put(out, at, AddressOctet(r.logical, true), done, was);
      assert done + [a[0]] == done + a;
      return 1;
    } else if r.addrLen == 2 {
      n := Put(out, at, AddressOctet(r.logical, false), done, was);
      n := Put(out, n, AddressOctet(r.physical, true), done + [a[0]], was);
      assert done + [a[0]] + [a[1]] == done + a;
      return 2;
    } else if r.addrLen == 4 {
      n := Put(out, at, AddressOctet(UpperSeven(r.logical), false), done, was);
      n := Put(out, n, AddressOctet(LowerSeven(r.logical), false), done + [a[0]], was);
      n := Put(out, n, AddressOctet(UpperSeven(r.physical), false), done + [a[0]] + [a[1]], was);
      n := Put(out, n, AddressOctet(LowerSeven(r.physical), true), done + [a[0]] + [a[1]] + [a[2]], was);
      assert done + [a[0]] + [a[1]] + [a[2]] + [a[3]] == done + a;
      return 4;
    }
    assert done + a == done;
    n := 0;
  }

  /** Computing a check over `out[from..idx]` and writing it behind, low octet first. */
  method AppendFcs(out: array<byte>, from: nat, idx: nat, ghost done: seq<byte>, ghost was: seq<byte>)
    returns (next: nat)
    requires from <= idx && idx + 2 <= out.Length && |done| == idx && Written(out[..], done, was)
    modifies out
    ensures next == idx + 2
    ensures Written(out[..], done + FcsOctets(done[from..]), was)
  {
    hide Low, High, Crc16, Written;
    Slice(out[..], done, was, from);
    assert out[from..idx] == out[..][from..idx];
    var fcs := ComputeCrc16(out[from..idx]);
    next := Put(out, idx, Low(fcs), done, was);
    next := Put(out, next, Low(High(fcs)), done + [Low(fcs)], was);
    assert done + [Low(fcs)] + [Low(High(fcs))] == done + FcsOctets(done[from..]);
  }

  lemma HeaderJoin<T>(flag: T, skipped: seq<T>, a: seq<T>, client: T, control: T, format: T, len: T)
    requires |skipped| == 2
    ensures ([] + [flag] + skipped + a + [client] + [control])[1 := format][2 := len]
         == [flag] + ([format, len] + a + [client] + [control])
  {
  }

  /** The part of `build_frame` before the checks: flag, format and length, addresses and control octet. */
  method WriteHeader(out: array<byte>, r: Route, control: byte, infoLen: nat, ghost was: seq<byte>)
    returns (idx: nat)
    requires FrameLen(Addressed(r), infoLen) + 2 <= out.Length && out[..] == was
    modifies out
    ensures idx == 1 + HeaderLen(Addressed(r))
    ensures Written(out[..], [FLAG] + Header(Addressed(r), control, infoLen), was)
  {
    hide Low, Low8, ClientOctet, FormatOctet, AddressOctets, Written;
    Untouched(was);
    idx := Put(out, 0, FLAG, [], was);
    var formatIdx := idx;
    Skip(out[..], [] + [FLAG], was, 2);
    ghost var done := [] + [FLAG] + was[1..3];
    idx := idx + 2;
    var addrLen := EncodeAddress(out, idx, r, done, was);
    idx := idx + addrLen;
    done := done + AddressOctets(r);
    idx := Put(out, idx, ClientOctet(r), done, was);
    idx := Put(out, idx, control, done + [ClientOctet(r)], was);
    done := done + [ClientOctet(r)] + [control];
    var frameLen := (idx - formatIdx) + if infoLen > 0 then 2 + infoLen + 2 else 2;
    assert frameLen == FrameLen(Addressed(r), infoLen);
    Patch(out, formatIdx, FormatOctet(frameLen), done, was);
    Patch(out, formatIdx + 1, Low8(frameLen % 256), done[formatIdx := FormatOctet(frameLen)], was);
    HeaderJoin(FLAG, was[1..3], AddressOctets(r), ClientOctet(r), control, FormatOctet(frameLen), Low8(frameLen % 256));
    assert Header(Addressed(r), control, infoLen)
        == [FormatOctet(frameLen), Low8(frameLen % 256)] + AddressOctets(r) + [ClientOctet(r)] + [control];
  }

  /** `build_frame`. Its capacity guard is `12 + info_len`; a frame with a four-octet address and information
      is two octets longer than that, so the true demand on the buffer is a requirement of its own. */
  method BuildFrame(out: array<byte>, maxLen: nat, r: Route, control: byte, info: seq<byte>) returns (n: nat)
    requires maxLen >= 12 + |info| ==> FrameLen(Addressed(r), |info|) + 2 <= out.Length
    modifies out
    ensures maxLen < 12 + |info| ==> n == 0 && out[..] == old(out[..])
    ensures maxLen >= 12 + |info| ==>
      n == |Wire(Addressed(r), control, info)| && Written(out[..], Wire(Addressed(r), control, info), old(out[..]))
  {
    hide Written, FcsOctets, Header, AddressOctets;
    if maxLen < 12 + |info| { return 0; }
    ghost var was := out[..];
    var idx := WriteHeader(out, r, control, |info|, was);
    ghost var h := Header(Addressed(r), control, |info|);
    if |info| > 0 {
      idx := AppendFcs(out, 1, idx, [FLAG] + h, was);
      assert ([FLAG] + h)[1..] == h;
      idx := Buffers.Copy(out, idx, info, [FLAG] + h + FcsOctets(h), was);
      assert [FLAG] + h + FcsOctets(h) + info == [FLAG] + (h + FcsOctets(h) + info);
    }
    ghost var d := Covered(Addressed(r), control, info);
    idx := AppendFcs(out, 1, idx, [FLAG] + d, was);
    assert ([FLAG] + d)[1..] == d;
    idx := Put(out, idx, FLAG, [FLAG] + d + FcsOctets(d), was);
    n := idx;
  }

  /** When the guard of `build_frame` suffices for the buffer it guards. */
  lemma GuardSufficesIff(r: Route, infoLen: nat, maxLen: nat)
    requires maxLen >= 12 + infoLen
    ensures FrameLen(Addressed(r), infoLen) + 2 <= maxLen <==> !(r.addrLen == 4 && infoLen > 0 && maxLen < 14 + infoLen)
  {
    assert FrameLen(Addressed(r), infoLen) + 2 <= 14 + infoLen;
  }

  /** `dlms_hdlc_build_snrm` */
  method BuildSnrm(out: array<byte>, maxLen: nat, r: Route) returns (n: nat)
    requires maxLen >= 33 ==> FrameLen(Addressed(r), 21) + 2 <= out.Length
    modifies out
    ensures maxLen < 33 ==> n == 0 && out[..] == old(out[..])
    ensures maxLen >= 33 ==>
      n == |Wire(Addressed(r), CTRL_SNRM, SNRM_INFO)| && Written(out[..], Wire(Addressed(r), CTRL_SNRM, SNRM_INFO),
        old(out[..]))
  {
    n := BuildFrame(out, maxLen, r, CTRL_SNRM, SNRM_INFO);
  }

  /** `dlms_hdlc_build_disc` */
  method BuildDisc(out: array<byte>, maxLen: nat, r: Route) returns (n: nat)
    requires maxLen >= 12 ==> FrameLen(Addressed(r), 0) + 2 <= out.Length
    modifies out
    ensures maxLen < 12 ==> n == 0 && out[..] == old(out[..])
    ensures maxLen >= 12 ==>
      && n == |Wire(Addressed(r), CTRL_DISC, [])|
      && Written(out[..], Wire(Addressed(r), CTRL_DISC, []), old(out[..]))
  {
    n := BuildFrame(out, maxLen, r, CTRL_DISC, []);
  }

  /** `dlms_hdlc_build_iframe` */
  method BuildIframe(out: array<byte>, maxLen: nat, r: Route, sendSeq: byte, recvSeq: byte, apdu: seq<byte>)
    returns (n: nat)
    requires |apdu| <= 509 && maxLen >= 15 + |apdu|
      ==> FrameLen(Addressed(r), |apdu| + 3) + 2 <= out.Length
    modifies out
    ensures |apdu| > 509 || maxLen < 15 + |apdu| ==> n == 0 && out[..] == old(out[..])
    ensures |apdu| <= 509 && maxLen >= 15 + |apdu| ==>
      n == |WireIframe(r, sendSeq, recvSeq, apdu)| && Written(out[..], WireIframe(r, sendSeq, recvSeq, apdu),
        old(out[..]))
  {
    if |apdu| > TX_BUFFER_SIZE - 3 { return 0; }
    n := BuildFrame(out, maxLen, r, IControl(sendSeq, recvSeq), IframeInfo(apdu));
  }
}
