/** `dlms_hdlc_parse_frame`, as a function and in place. */
module HdlcParser {
  import opened Bytes
  import opened Fcs16
  import opened Hdlc

  predicate IsI(control: byte) { control & 1 == 0 }

  predicate IsRr(control: byte) { control & 1 != 0 && control & 0x0F == 1 }

  predicate IsUi(control: byte) { control & 1 != 0 && control & 0x0F != 1 && control == 0x13 }

  function SendSeq(control: byte): byte { (control >> 1) & 7 }

  function RecvSeq(control: byte): byte { (control >> 5) & 7 }

  /** A received frame; the flags and sequence numbers of `dlms_hdlc_frame_t` follow from the control octet. */
  datatype Frame = Frame(control: byte, info: seq<byte>)

  /** The extension bit, set on the last octet of an address. */
  predicate Ends(b: byte) { b & 1 != 0 }

  /** An address field: its last octet, and no other, has the extension bit set. */
  predicate IsAddress(a: seq<byte>) { |a| >= 1 && forall k :: 0 <= k < |a| ==> (Ends(a[k]) <==> k == |a| - 1) }

  predicate WellAddressed(a: Addresses) { IsAddress(a.dst) && IsAddress(a.src) }

  /** The loop that skips address octets up to the first one with its low bit set. */
  function SkipAddress(data: seq<byte>, idx: nat, limit: nat): (j: nat)
    requires limit <= |data|
    ensures idx <= j && (idx <= limit ==> j <= limit)
    decreases limit - idx
  {
    if idx >= limit then idx
    else if Ends(data[idx]) then idx + 1
    else SkipAddress(data, idx + 1, limit)
  }

  function LengthField(data: seq<byte>): nat
    requires |data| >= 3
  {
    Val(data[1] & 7) * 256 + Val(data[2])
  }

  /** The LLC header of a response or push, as the parser recognises it. */
  predicate HasLlc(info: seq<byte>): (b: bool)
    ensures b ==> |info| >= 3
  {
    |info| >= 3
    && ((info[0] == LLC_DSAP && (info[1] == LLC_RESPONSE_SSAP || info[1] == LLC_DSAP)) || info[0] == 0xE0)
    && info[2] == LLC_CONTROL
  }

  /** The second LLC header that the E450 pushes. */
  predicate HasQuirk(info: seq<byte>): (b: bool)
    ensures b ==> |info| >= 3
  { |info| >= 3 && info[0] == 0xE0 && info[2] == 0x00 }

  function StripLlc(info: seq<byte>): seq<byte> {
    var once := if HasLlc(info) then info[3..] else info;
    if HasQuirk(once) then once[3..] else once
  }

  predicate Delimited(data: seq<byte>): (b: bool)
    ensures b ==> |data| >= 5
  {
    |data| >= 5 && data[0] == FLAG && data[|data| - 1] == FLAG
    && data[1] & 0xF0 == FORMAT_TYPE && LengthField(data) == |data| - 2
  }

  /** Where the control octet is read. */
  function ControlAt(data: seq<byte>): (c: nat)
    requires |data| >= 5
    ensures |data| == 5 ==> c == 3
    ensures 3 <= c
    ensures |data| >= 6 ==> c <= |data| - 3
  {
    SkipAddress(data, SkipAddress(data, 3, |data| - 3), |data| - 3)
  }

  /** The subtraction that gives the information length cannot go below zero: it would need the header
      check and the frame check to succeed one octet apart. */
  lemma InfoLengthNeverUnderflows(data: seq<byte>, c: nat)
    requires |data| >= 5 && 3 <= c && c + 3 <= |data| - 2
    requires Verify(data[1..c + 3]) && Verify(data[1..|data| - 1])
    ensures c + 3 <= |data| - 3
  {
    hide Verify;
    if c + 3 == |data| - 2 {
      assert data[1..|data| - 1] == data[1..c + 3] + [data[c + 3]];
      NeverGoodTwice(data[1..c + 3], data[c + 3]);
    }
  }

  function Parse(data: seq<byte>): Option<Frame> {
    if !Delimited(data) || !Verify(data[1..|data| - 1]) then None
    else
      var c := ControlAt(data);
      if |data| - 2 > c + 2 then
        if !Verify(data[1..c + 3]) then None
        else
          InfoLengthNeverUnderflows(data, c);
          var info := StripLlc(data[c + 3..|data| - 3]);
          if |info| > INFO_CAPACITY then None else Some(Frame(data[c], info))
      else Some(Frame(data[c], []))
  }

  // ---------- The imperative parser ----------

  /** `dlms_hdlc_frame_t` */
  class FrameBuffer {
    var control: byte
    const info: array<byte>
    var infoLen: nat
    var isIframe: bool
    var isRr: bool
    var isUi: bool
    var sendSeq: byte
    var recvSeq: byte

    constructor ()
      ensures Valid() && fresh(info)
    {
      control, sendSeq, recvSeq, infoLen := 0, 0, 0, 0;
      isIframe, isRr, isUi := false, false, false;
      info := new byte[INFO_CAPACITY];
    }

    ghost predicate Valid()
      reads this
    {
      info.Length == INFO_CAPACITY && infoLen <= INFO_CAPACITY
    }

    /** The fields show the parsed frame; sequence numbers are set only where its kind has them. */
    ghost predicate Shows(f: Frame)
      reads this, info
      ensures Shows(f) ==> Valid()
    {
      && Valid()
      && control == f.control && info[..infoLen] == f.info
      && isIframe == IsI(control) && isRr == IsRr(control) && isUi == IsUi(control)
      && (isIframe ==> sendSeq == SendSeq(control))
      && (isIframe || isRr ==> recvSeq == RecvSeq(control))
    }
  }

  method SkipAddressOctets(data: seq<byte>, start: nat, limit: nat) returns (idx: nat)
    requires limit <= |data|
    ensures idx == SkipAddress(data, start, limit)
  {
    idx := start;
    while idx < limit
      invariant SkipAddress(data, idx, limit) == SkipAddress(data, start, limit)
      decreases limit - idx
    {
      var last := Ends(data[idx]);
      idx := idx + 1;
      if last { break; }
    }
  }

  /** Storing the control octet and what it says about the kind of frame. */
  method SetControl(frame: FrameBuffer, control: byte)
    requires frame.Valid()
    modifies frame
    ensures frame.Shows(Frame(control, []))
  {
    frame.control := control;
    frame.infoLen := 0;
    frame.isIframe := false;
    frame.isRr := false;
    frame.isUi := false;
    if frame.control & 0x01 == 0 {
      frame.isIframe := true;
      frame.sendSeq := (frame.control >> 1) & 0x07;
      frame.recvSeq := (frame.control >> 5) & 0x07;
    } else if frame.control & 0x0F == 0x01 {
      frame.isRr := true;
      frame.recvSeq := (frame.control >> 5) & 0x07;
    } else if frame.control == 0x13 {
      frame.isUi := true;
    }
  }

  lemma Drop<T>(data: seq<T>, start: nat, end: nat)
    requires start + 3 <= end <= |data|
    ensures data[start..end][3..] == data[start + 3..end]
  {
  }

  method Fill<T>(out: array<T>, src: seq<T>)
    requires |src| <= out.Length
    modifies out
    ensures out[..|src|] == src
  {
    forall i | 0 <= i < |src| { out[i] := src[i]; }
  }

  /** Skipping up to two LLC headers and copying the rest of `data[start..end]` into the frame. */
  method CopyInfo(data: seq<byte>, start: nat, end: nat, frame: FrameBuffer, ghost shown: Frame) returns (ok: bool)
    requires start <= end <= |data| && shown.info == [] && frame.Shows(shown)
    modifies frame, frame.info
    ensures frame.Valid()
    ensures ok <==> |StripLlc(data[start..end])| <= INFO_CAPACITY
    ensures ok ==> frame.Shows(shown.(info := StripLlc(data[start..end])))
  {
    hide HasLlc, HasQuirk, IsI, IsRr, IsUi, SendSeq, RecvSeq;
    var idx, infoFieldLen := start, end - start;
    ghost var payload := data[start..end];
    if HasLlc(data[idx..end]) {
      idx := idx + 3;
      infoFieldLen := infoFieldLen - 3;
      Drop(data, start, end);
    }
    ghost var once := if HasLlc(payload) then payload[3..] else payload;
    assert data[idx..end] == once;
    if HasQuirk(data[idx..end]) {
      Drop(data, idx, end);
      idx := idx + 3;
      infoFieldLen := infoFieldLen - 3;
    }
    assert data[idx..end] == StripLlc(payload);
    if infoFieldLen > frame.info.Length { return false; }
    Fill(frame.info, data[idx..end]);
    frame.infoLen := infoFieldLen;
    assert frame.info[..infoFieldLen] == data[idx..end];
    return true;
  }

  /** `dlms_hdlc_parse_frame`. Every read is inside `data` and every copy inside the information buffer. */
  method ParseFrame(data: seq<byte>, frame: FrameBuffer) returns (ok: bool)
    requires frame.Valid()
    modifies frame, frame.info
    ensures frame.Valid()
    ensures ok <==> Parse(data).Some?
    ensures ok ==> frame.Shows(Parse(data).value)
  {
    hide Verify, StripLlc, Ends, IsI, IsRr, IsUi, SendSeq, RecvSeq;
    var len := |data|;
    if len < 5 { return false; }
    if data[0] != FLAG || data[len - 1] != FLAG { return false; }
    if data[1] & 0xF0 != FORMAT_TYPE { return false; }
    var frameLen := LengthField(data);
    if frameLen != len - 2 { return false; }
    var fcsOk := VerifyCrc16(data[1..len - 1]);
    if !fcsOk { return false; }

    var idx := SkipAddressOctets(data, 3, len - 3);
    idx := SkipAddressOctets(data, idx, len - 3);
    assert idx == ControlAt(data);
    SetControl(frame, data[idx]);
    ghost var shown := Frame(data[idx], []);
    idx := idx + 1;
    var headerLen := idx - 1;
    if frameLen > headerLen + 2 {
      var hcsOk := VerifyCrc16(data[1..headerLen + 3]);
      if !hcsOk { return false; }
      InfoLengthNeverUnderflows(data, headerLen);
      idx := idx + 2;
      ok := CopyInfo(data, idx, len - 1 - 2, frame, shown);
      return ok;
    }
    return true;
  }
}
