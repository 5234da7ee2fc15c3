/**
 * SharpSMS.SMSSubmit: an SMS-SUBMIT (3GPP TS 23.040 section 9.2.2.2) built from a message
 * content, split into concatenated parts when the user data does not fit into one message.
 * Each PDU is the header (SMSC length, first octet, message reference, destination address,
 * PID, DCS, optional relative validity, user data length) followed by the user data header
 * and the encoded body slice.
 */
module SmsSubmit {
  import opened Wrappers
  import opened Arith
  import opened SmsEnums
  import opened SmsHeader
  import MI = MessageIndication
  import opened Septets
  import opened SmsContent

  /** The concatenation element: 16-bit reference IE, its length, reference 1. */
  const ConcatIe: byte := 0x08
  const ConcatIeLength: byte := 0x04
  const ConcatReference: byte := 0x01
  /** `CONCATED_UDH_FULL_LENGTH`: the concatenation element with its IE identifier and length. */
  const ConcatFullLength: nat := 7

  /** The properties of `SMSSubmit`; the validity period `TimeSpan.MinValue` is `None`, a null or
      empty phone number the empty string, a null content `None`. */
  datatype Submit = Submit(
    deliveryConfirmation: bool,
    validity: Option<TimeSpan>,
    messageReference: byte,
    protocolIdentifier: byte,
    phoneNumber: string,
    indication: MI.Indication,
    content: Option<Content>)
  {
    /** Every `TimeSpan` has components of one sign within their ranges. */
    predicate Valid()
    {
      validity.Some? ==> validity.value.Valid()
    }
  }

  /** `new SMSSubmit(messageToSent)`: no delivery report, no validity period, reference and
      PID 0, and the ME-specific voicemail indication with no operation. */
  function NewSubmit(content: Option<Content>): (s: Submit)
    ensures s.Valid() && s.content == content && s.phoneNumber == []
    ensures !s.deliveryConfirmation && s.validity.None? && s.messageReference == 0 && s.protocolIdentifier == 0
    ensures s.indication == MI.Indication(MESpecific, Voicemail, NotSet, false)
  {
    Submit(false, None, 0, 0, [], MI.CreateDefault(), content)
  }

  /** The user data budget of one message: 160 septets, or 140 octets. */
  function MaxOctets(enc: DataEncoding): nat
  {
    match enc
    case Default7bit => 160
    case Data8bit => 140
    case UCS2_16bit => 140
  }

  // ---------------------------------------------------------------------
  // Encoding

  /** `GetEncodedMessage`: 7-bit text packed into septets, other data as it is. */
  function Encoded(enc: DataEncoding, data: seq<byte>): seq<byte>
  {
    if enc == Default7bit then Pack(data) else data
  }

  /** Packing saves one octet in eight, so the 160 septets of a full 7-bit message take the same
      140 octets as a full 8-bit one. */
  lemma EncodedLength(enc: DataEncoding, data: seq<byte>)
    ensures |Encoded(enc, data)| == if enc == Default7bit then |data| - |data| / 8 else |data|
    ensures |data| <= MaxOctets(enc) ==> |Encoded(enc, data)| <= 140
  {
    PackLength(data);
  }

  /** `GetEncodedMessage`. */
  method GetEncodedMessage(enc: DataEncoding, messageData: seq<byte>) returns (r: seq<byte>)
    ensures r == Encoded(enc, messageData)
  {
    match enc {
      case Default7bit =>
        r := OctetsToSeptets(messageData);
      case Data8bit =>
        r := messageData;
      case UCS2_16bit =>
        r := messageData;
    }
  }

  // ---------------------------------------------------------------------
  // User data header

  /** `GetConcatPdu`: with more than one part (as the byte in the struct holds it) the header
      length, the concatenation element and the content's header; otherwise the header length
      and the content's header when it has one, and nothing when it has none. */
  function ConcatUdh(parts: byte, sequence: byte, udh: seq<byte>): seq<byte>
  {
    if parts > 1 then
      [ByteOf(6 + |udh|), ConcatIe, ConcatIeLength, 0x00, ConcatReference, parts, sequence] + udh
    else if |udh| > 0 then [ByteOf(|udh|)] + udh
    else []
  }

  /** The header is absent exactly when there is nothing to put in it; its first octet counts the
      octets after it (mod 256) and the content's header closes it. A concatenation element names
      the part count and the sequence number. */
  lemma ConcatUdhLayout(parts: byte, sequence: byte, udh: seq<byte>)
    ensures var r := ConcatUdh(parts, sequence, udh);
            (r == [] <==> parts <= 1 && udh == []) &&
            (r != [] ==> r[0] == ByteOf(|r| - 1) && |r| > |udh| && r[|r| - |udh|..] == udh) &&
            (parts > 1 ==> |r| == ConcatFullLength + |udh| && r[1..7] == [0x08, 0x04, 0x00, 0x01, parts, sequence]) &&
            (parts <= 1 ==> |r| == if udh == [] then 0 else |udh| + 1)
  {
    var r := ConcatUdh(parts, sequence, udh);
    if parts > 1 {
      DropPrefix([ByteOf(6 + |udh|), ConcatIe, ConcatIeLength, 0x00, ConcatReference, parts, sequence], udh);
    } else if udh != [] {
      DropPrefix([ByteOf(|udh|)], udh);
    }
  }

  /** `GetConcatPdu`. */
  method GetConcatPdu(parts: byte, sequence: byte, messageUdh: seq<byte>) returns (r: seq<byte>)
    ensures r == ConcatUdh(parts, sequence, messageUdh)
  {
    r := [];
    if parts > 1 {
      var concatHeader: seq<byte> := [ConcatIe];
      concatHeader := concatHeader + [ConcatIeLength];
      concatHeader := concatHeader + [0x00];
      concatHeader := concatHeader + [ConcatReference];
      concatHeader := concatHeader + [parts];
      concatHeader := concatHeader + [sequence];
      r := r + [ByteOf(|concatHeader| + |messageUdh|)];
      r := r + concatHeader;
    } else if |messageUdh| > 0 {
      r := r + [ByteOf(|messageUdh|)];
    }
    r := r + messageUdh;
  }

  // ---------------------------------------------------------------------
  // PDU header

  /** The TP-VP octet, written only when a validity period is set. */
  function ValidityPart(s: Submit): (r: seq<byte>)
    requires s.Valid()
    ensures |r| <= 1 && (r == [] <==> s.validity.None?)
  {
    if s.validity.Some? then [RelativeValidity(s.validity.value)] else []
  }

  /** `GetPDUHeader` as a value: no SMSC address, the first octet, the message reference, the
      destination address, PID, DCS, the validity period and the user data length cast to a
      byte. An empty phone number fails. */
  function PduHeader(s: Submit, enc: DataEncoding, dataLength: int, hasCustomHeader: bool): (r: Result<seq<byte>>)
    requires s.Valid()
    ensures r.Err? <==> s.phoneNumber == []
    ensures r.Err? ==> r.error == PhoneNumberNotSet
  {
    var address := AddressField(s.phoneNumber);
    if address.Err? then Err(address.error)
    else
      Ok([0x00, FirstOctet(s.validity.Some?, s.deliveryConfirmation, hasCustomHeader), s.messageReference]
         + address.value + [s.protocolIdentifier, MI.ToByte(s.indication, enc) as int]
         + ValidityPart(s) + [ByteOf(dataLength)])
  }

  /** Where each field of the header sits: the address after the first three octets, PID and DCS
      after it, TP-VP when set, and the user data length last; the first octet says whether a
      validity period and a user data header follow. */
  lemma PduHeaderLayout(s: Submit, enc: DataEncoding, dataLength: int, hasCustomHeader: bool)
    requires s.Valid()
    ensures PduHeader(s, enc, dataLength, hasCustomHeader).Ok? ==>
              var h, a := PduHeader(s, enc, dataLength, hasCustomHeader).value, AddressField(s.phoneNumber).value;
              |h| == 6 + |a| + |ValidityPart(s)| &&
              h[0] == 0x00 && h[2] == s.messageReference &&
              ((h[1] / 0x10) % 2 == 1 <==> s.validity.Some?) &&
              ((h[1] / 0x40) % 2 == 1 <==> hasCustomHeader) &&
              h[3..3 + |a|] == a && h[3 + |a|] == s.protocolIdentifier &&
              h[4 + |a|] == MI.ToByte(s.indication, enc) as int &&
              (s.validity.Some? ==> h[5 + |a|] == RelativeValidity(s.validity.value)) &&
              h[|h| - 1] == dataLength % 256
  {
    AddressFieldLayout(s.phoneNumber);
    if s.phoneNumber != [] {
      var a := AddressField(s.phoneNumber).value;
      var front := [0x00, FirstOctet(s.validity.Some?, s.deliveryConfirmation, hasCustomHeader), s.messageReference];
      var back := [s.protocolIdentifier, MI.ToByte(s.indication, enc) as int] + ValidityPart(s) + [ByteOf(dataLength)];
      var h := PduHeader(s, enc, dataLength, hasCustomHeader).value;
      assert h == front + a + back by {
        AppendAssoc4(front + a, [s.protocolIdentifier, MI.ToByte(s.indication, enc) as int], ValidityPart(s), [ByteOf(dataLength)]);
        AppendAssoc(front, a, back);
      }
      assert h[3..3 + |a|] == a;
      assert h[3 + |a|..] == back;
    }
  }

  /** `GetPDUHeader`. */
  method GetPduHeader(s: Submit, enc: DataEncoding, dataLength: int, hasCustomHeader: bool) returns (r: Result<seq<byte>>)
    requires s.Valid()
    ensures r == PduHeader(s, enc, dataLength, hasCustomHeader)
  {
    var header: seq<byte> := [0x00];
    header := header + [FirstOctet(s.validity.Some?, s.deliveryConfirmation, hasCustomHeader)];
    header := header + [s.messageReference];
    var written := WritePhoneNumber(header, s.phoneNumber);
    if written.Err? {
      return Err(written.error);
    }
    header := written.value;
    header := header + [s.protocolIdentifier];
    header := header + [MI.ToByte(s.indication, enc) as int];
    ghost var front := header;
    assert front == [0x00, FirstOctet(s.validity.Some?, s.deliveryConfirmation, hasCustomHeader), s.messageReference]
         + AddressField(s.phoneNumber).value + [s.protocolIdentifier, MI.ToByte(s.indication, enc) as int];
    if s.validity.Some? {
      header := header + [RelativeValidity(s.validity.value)];
    }
    assert header == front + ValidityPart(s);
    header := header + [ByteOf(dataLength)];
    r := Ok(header);
  }

  /** `GetPDUBytes` as a value: the header followed by the user data. */
  function PduBytes(s: Submit, enc: DataEncoding, messageBody: seq<byte>, messageLength: int, hasCustomHeader: bool): (r: Result<seq<byte>>)
    requires s.Valid()
    ensures r.Err? <==> s.phoneNumber == []
  {
    var header := PduHeader(s, enc, messageLength, hasCustomHeader);
    if header.Err? then Err(header.error) else Ok(header.value + messageBody)
  }

  /** A PDU splits back into its header and the user data behind it. */
  lemma PduBytesLayout(s: Submit, enc: DataEncoding, messageBody: seq<byte>, messageLength: int, hasCustomHeader: bool)
    requires s.Valid() && s.phoneNumber != []
    ensures var r, h := PduBytes(s, enc, messageBody, messageLength, hasCustomHeader).value,
                        PduHeader(s, enc, messageLength, hasCustomHeader).value;
            |r| == |h| + |messageBody| && r[..|h|] == h && r[|h|..] == messageBody
  {
    var h := PduHeader(s, enc, messageLength, hasCustomHeader).value;
    DropPrefix(h, messageBody);
    assert (h + messageBody)[..|h|] == h;
  }

  /** `GetPDUBytes`. */
  method GetPduBytes(s: Submit, enc: DataEncoding, messageBody: seq<byte>, messageLength: int, hasCustomHeader: bool) returns (r: Result<seq<byte>>)
    requires s.Valid()
    ensures r == PduBytes(s, enc, messageBody, messageLength, hasCustomHeader)
  {
    var header := GetPduHeader(s, enc, messageLength, hasCustomHeader);
    if header.Err? {
      return Err(header.error);
    }
    r := Ok(header.value + messageBody);
  }

  // ---------------------------------------------------------------------
  // Part count

  /** The first two estimates of `GetPDUList`: the body over the room left by the content's
      header (and its length octet), then the body with one content header per part. */
  function FirstCount(n: nat, u: nat, max: nat): nat
    requires u + 2 <= max
  {
    var maxLen := max - u - (if u > 0 then 1 else 0);
    var p0 := CeilDiv(n, maxLen);
    CeilDiv(n + p0 * u, maxLen)
  }

  /** The part count of `GetPDUList` as written: past one part it adds eight octets per part
      for the concatenation header and divides by the single-part room again, although every
      part but the last carries max - 8 - u octets of body. */
  function PartCountAsWritten(n: nat, u: nat, max: nat): nat
    requires u + 2 <= max
  {
    var maxLen := max - u - (if u > 0 then 1 else 0);
    var p1 := FirstCount(n, u, max);
    if p1 > 1 then CeilDiv(n + p1 * u + p1 * (ConcatFullLength + 1), maxLen) else p1
  }

  /** The body octets a part with a concatenation header has room for. */
  function Stride(u: nat, max: nat): nat
    requires u + 9 <= max
  {
    max - (ConcatFullLength + 1) - u
  }

  /** The part count with the correction: past one part, as many parts as slices of the room a
      part with a concatenation header leaves. */
  function PartCount(n: nat, u: nat, max: nat): nat
    requires u + 9 <= max
  {
    var p1 := FirstCount(n, u, max);
    if p1 > 1 then CeilDiv(n, Stride(u, max)) else p1
  }

  /** The corrected count fits: a single part's body and header fit the budget, and past one
      part the full slices before the last fall short of the body while the parts hold it all. */
  lemma PartCountFits(n: nat, u: nat, max: nat)
    requires u <= 7 && u + 9 <= max
    ensures var p, st := PartCount(n, u, max), Stride(u, max);
            (p <= 1 ==> n + (if u > 0 then u + 1 else 0) <= max) &&
            (p > 1 ==> (p - 1) * st < n <= p * st)
  {
    var maxLen := max - u - (if u > 0 then 1 else 0);
    var p0 := CeilDiv(n, maxLen);
    var p1 := FirstCount(n, u, max);
    var st := Stride(u, max);
    CeilDivAtMostOne(n, maxLen);
    CeilDivAtMostOne(n + p0 * u, maxLen);
    if p1 <= 1 {
      if n > 0 {
        assert p0 == 1;
      }
    } else {
      CeilDivAtMostOne(n, st);
      if n <= st {
        assert false;
      }
    }
  }

  /** Ceiling division gives at most one exactly when the dividend does not exceed the divisor,
      and zero exactly when the dividend is zero. */
  lemma CeilDivAtMostOne(a: nat, b: nat)
    requires b > 0
    ensures CeilDiv(a, b) <= 1 <==> a <= b
    ensures CeilDiv(a, b) == 0 <==> a == 0
  {
    var r := CeilDiv(a, b);
    if r >= 2 {
      assert (r - 1) * b == b + (r - 2) * b;
    }
    if r == 1 {
      assert r * b == b;
    }
  }

  /** The count as written overruns the body: a 239-octet WAP push (six-octet header) gets three
      parts of 126 octets, so the copy of the second runs past the end; a 3193-character text
      gets 21 parts and its last part 153 septets of body, one more than the others and 161 in
      all with the header. The corrected count gives 2 and 22. */
  lemma PartCountAsWrittenOverruns()
    ensures PartCountAsWritten(239, 6, 140) == 3 && 2 * Stride(6, 140) > 239
    ensures PartCountAsWritten(3193, 0, 160) == 21 && 3193 - 20 * Stride(0, 160) == Stride(0, 160) + 1
    ensures 3193 - 20 * Stride(0, 160) + ConcatFullLength + 1 > MaxOctets(Default7bit)
    ensures PartCount(239, 6, 140) == 2 && PartCount(3193, 0, 160) == 22
  {
    assert FirstCount(239, 6, 140) == 2 by {
      assert CeilDiv(239, 133) == 2;
      assert CeilDiv(251, 133) == 2;
    }
    assert CeilDiv(267, 133) == 3;
    assert FirstCount(3193, 0, 160) == 20 by {
      assert CeilDiv(3193, 160) == 20;
    }
    assert CeilDiv(3353, 160) == 21;
    assert CeilDiv(239, 126) == 2;
    assert CeilDiv(3193, 152) == 22;
  }

  /** The corrected count can also differ where the code as written succeeds: an 8-bit body of
      2377 octets without a content header gets 18 parts as written, 17 full slices and a last
      one whose user data fills the 140 octets exactly, and 19 corrected parts, because the
      last slice of an 8-bit body has room for one octet more than a full slice. */
  lemma PartCountAsWrittenFitsWithFewer()
    ensures PartCountAsWritten(2377, 0, 140) == 18 && PartCount(2377, 0, 140) == 19
    ensures 2377 - 17 * Stride(0, 140) + ConcatFullLength == MaxOctets(Data8bit)
  {
    assert FirstCount(2377, 0, 140) == 17 by {
      assert CeilDiv(2377, 140) == 17;
    }
    assert CeilDiv(2513, 140) == 18;
    assert CeilDiv(2377, 132) == 19;
  }

  // ---------------------------------------------------------------------
  // The list of PDUs

  /** What `GetPDUList` fixes before it writes: the alphabet, the body, the content's header and
      the part count. */
  datatype Plan = Plan(enc: DataEncoding, body: seq<byte>, udh: seq<byte>, parts: nat)

  /** The user data header of part i, with the part count and sequence number cast to bytes. */
  function PartUdh(p: Plan, i: nat): seq<byte>
  {
    ConcatUdh(ByteOf(p.parts), ByteOf(i + 1), p.udh)
  }

  /** The PDU of part i with the given slice of the body; the user data length counts the slice,
      the header and, in 7-bit, one more for the alignment. */
  function PartPdu(s: Submit, p: Plan, i: nat, slice: seq<byte>): Result<seq<byte>>
    requires s.Valid()
  {
    var udh := PartUdh(p, i);
    var length := |slice| + |udh| + (if p.enc == Default7bit then 1 else 0);
    PduBytes(s, p.enc, udh + Encoded(p.enc, slice), length, |udh| > 0)
  }

  /** The body octets part i takes from position pos: the room its header leaves when it is not
      the last, and what remains of the body when it is. */
  function PartLength(p: Plan, i: nat, pos: nat): int
  {
    if i + 1 < p.parts then MaxOctets(p.enc) - |PartUdh(p, i)| - 1 else |p.body| - pos
  }

  /** The loop of `GetPDUList` from part i at body position pos: a non-final part takes the room
      its header leaves, the last what remains; a negative length or a slice past the end of the
      body fails as the array allocation and the copy do. */
  function PartsFrom(s: Submit, p: Plan, i: nat, pos: nat): Result<seq<seq<byte>>>
    requires s.Valid() && i <= p.parts
    decreases p.parts - i
  {
    if i == p.parts then Ok([])
    else
      var count := PartLength(p, i, pos);
      if count < 0 then Err(NegativeArrayLength)
      else if pos + count > |p.body| then Err(CopyPastEnd)
      else
        var pdu := PartPdu(s, p, i, p.body[pos..pos + count]);
        if pdu.Err? then Err(pdu.error)
        else Appended([pdu.value], PartsFrom(s, p, i + 1, pos + count))
  }

  /** The single message: the content's header with its length octet and the whole body. */
  function SinglePdu(s: Submit, p: Plan): Result<seq<byte>>
    requires s.Valid()
  {
    var udh := ConcatUdh(1, 0, p.udh);
    PduBytes(s, p.enc, udh + Encoded(p.enc, p.body), |p.body| + |udh|, |udh| > 0)
  }

  /** The plan of a submit whose content gives a body. */
  function PlanOf(s: Submit, mac: (seq<byte>, seq<byte>) -> seq<byte>): (p: Plan)
    requires s.content.Some? && SmsBytes(s.content.value, mac).Ok?
    ensures |p.udh| <= 6 && p.udh == UdhBytes(s.content.value) && p.body == SmsBytes(s.content.value, mac).value
    ensures p.enc == Encoding(s.content.value)
    ensures p.parts == PartCount(|p.body|, |p.udh|, MaxOctets(p.enc))
  {
    var c := s.content.value;
    var udh := UdhBytes(c);
    UdhBytesShape(c);
    var body := SmsBytes(c, mac).value;
    Plan(Encoding(c), body, udh, PartCount(|body|, |udh|, MaxOctets(Encoding(c))))
  }

  /** `GetPDUList` as a value: a null content or body fails; one part is a single message, more
      are the parts of the loop. */
  function PduList(s: Submit, mac: (seq<byte>, seq<byte>) -> seq<byte>): Result<seq<seq<byte>>>
    requires s.Valid()
  {
    if s.content.None? then Err(NullValue)
    else
      var body := SmsBytes(s.content.value, mac);
      if body.Err? then Err(body.error)
      else
        var p := PlanOf(s, mac);
        if p.parts > 1 then PartsFrom(s, p, 0, 0)
        else
          var single := SinglePdu(s, p);
          if single.Err? then Err(single.error) else Ok([single.value])
  }

  // ---------------------------------------------------------------------
  // What the list promises

  /** The body octets per part of a plan's concatenated parts. */
  function PlanStride(p: Plan): nat
    requires |p.udh| + 9 <= MaxOctets(p.enc)
  {
    Stride(|p.udh|, MaxOctets(p.enc))
  }

  /** A plan of the corrected count past one part: at most 255 parts, so the count fits its byte,
      and the slices of a stride hold the body with the last one non-empty. */
  predicate Splits(p: Plan)
  {
    |p.udh| <= 7 && |p.udh| + 9 <= MaxOctets(p.enc) && 1 < p.parts < 256 &&
    (p.parts - 1) * PlanStride(p) < |p.body| <= p.parts * PlanStride(p)
  }

  /** Where part k's slice starts: k strides into the body. */
  function Start(p: Plan, k: nat): nat
    requires |p.udh| + 9 <= MaxOctets(p.enc)
  {
    k * PlanStride(p)
  }

  /** Where part k's slice ends: one stride after it starts, or at the end of the body for the
      last part. */
  function SliceEnd(p: Plan, k: nat): int
    requires |p.udh| + 9 <= MaxOctets(p.enc)
  {
    if k + 1 < p.parts then Start(p, k + 1) else |p.body|
  }

  /** A product grows with its left factor. */
  lemma MulMono(a: nat, b: nat, c: nat)
    requires a <= b
    ensures a * c <= b * c
  {
    assert b * c == a * c + (b - a) * c;
  }

  /** The arithmetic of strides: with n between parts - 1 and parts strides, stride k starts
      inside n, and ends one stride later or, for the last, at n. */
  lemma StrideArith(k: nat, parts: nat, st: nat, n: nat, end: int)
    requires k < parts && (parts - 1) * st < n <= parts * st
    requires end == if k + 1 < parts then (k + 1) * st else n
    ensures 0 <= k * st < end <= n && end - k * st <= st
    ensures k + 1 < parts ==> end == k * st + st
  {
    assert (k + 1) * st == k * st + st;
    if k + 1 < parts {
      MulMono(k + 1, parts - 1, st);
    } else {
      assert k * st == (parts - 1) * st;
      assert parts * st == k * st + st;
    }
  }

  /** Every slice of a splitting plan starts inside the body where the one before it ends, is
      non-empty and no longer than a stride. */
  lemma SliceBounds(p: Plan, k: nat)
    requires Splits(p) && k < p.parts
    ensures 0 <= Start(p, k) < SliceEnd(p, k) <= |p.body|
    ensures SliceEnd(p, k) - Start(p, k) <= PlanStride(p)
    ensures k + 1 < p.parts ==> SliceEnd(p, k) == Start(p, k) + PlanStride(p)
  {
    StrideArith(k, p.parts, PlanStride(p), |p.body|, SliceEnd(p, k));
  }

  /** Part k's slice of the body. */
  function Slice(p: Plan, k: nat): seq<byte>
    requires Splits(p) && k < p.parts
  {
    SliceBounds(p, k);
    p.body[Start(p, k)..SliceEnd(p, k)]
  }

  /** Each part of a splitting plan fits one message: its slice is non-empty and at most a stride,
      its header is the concatenation element and the content's header, and the user data
      length it announces is within the budget. */
  lemma PartFits(p: Plan, k: nat)
    requires Splits(p) && k < p.parts
    ensures 0 < |Slice(p, k)| <= PlanStride(p)
    ensures |PartUdh(p, k)| == ConcatFullLength + |p.udh|
    ensures |Slice(p, k)| + |PartUdh(p, k)| + (if p.enc == Default7bit then 1 else 0) <= MaxOctets(p.enc)
  {
    SliceBounds(p, k);
    ConcatUdhLayout(ByteOf(p.parts), ByteOf(k + 1), p.udh);
  }

  /** One turn of the loop on a splitting plan: part i takes its slice, its PDU is written and
      the loop goes on at the start of the next slice. */
  lemma PartsFromStep(s: Submit, p: Plan, i: nat)
    requires s.Valid() && s.phoneNumber != [] && Splits(p) && i < p.parts
    ensures PartPdu(s, p, i, Slice(p, i)).Ok?
    ensures PartsFrom(s, p, i, Start(p, i)) ==
              Appended([PartPdu(s, p, i, Slice(p, i)).value], PartsFrom(s, p, i + 1, Start(p, i + 1)))
  {
    var st := PlanStride(p);
    SliceBounds(p, i);
    PartFits(p, i);
    var count := SliceEnd(p, i) - Start(p, i);
    assert PartLength(p, i, Start(p, i)) == count;
    if i + 1 < p.parts {
      assert Start(p, i) + count == Start(p, i + 1);
    }
  }

  /** The PDUs of parts i onwards of a splitting plan, each the PDU of its slice. */
  function Parts(s: Submit, p: Plan, i: nat): (r: seq<seq<byte>>)
    requires s.Valid() && s.phoneNumber != [] && Splits(p) && i <= p.parts
    ensures |r| == p.parts - i
  {
    seq(p.parts - i, j requires 0 <= j < p.parts - i => PartPdu(s, p, i + j, Slice(p, i + j)).value)
  }

  /** The PDUs from part i are part i's PDU followed by those from part i + 1. */
  lemma PartsCons(s: Submit, p: Plan, i: nat)
    requires s.Valid() && s.phoneNumber != [] && Splits(p) && i < p.parts
    ensures Parts(s, p, i) == [PartPdu(s, p, i, Slice(p, i)).value] + Parts(s, p, i + 1)
  {
    var r, rest := Parts(s, p, i), Parts(s, p, i + 1);
    forall j | 0 < j < |r|
      ensures r[j] == rest[j - 1]
    {
      assert i + j == (i + 1) + (j - 1);
    }
  }

  /** From part i on, the loop of a splitting plan succeeds and writes the PDU of each remaining
      part's slice. */
  lemma {:induction false} PartsFromSlices(s: Submit, p: Plan, i: nat)
    requires s.Valid() && s.phoneNumber != [] && Splits(p) && i <= p.parts
    ensures PartsFrom(s, p, i, Start(p, i)) == Ok(Parts(s, p, i))
    decreases p.parts - i
  {
    if i < p.parts {
      PartsFromStep(s, p, i);
      PartsFromSlices(s, p, i + 1);
      PartsCons(s, p, i);
    } else {
      assert Parts(s, p, i) == [];
    }
  }

  /** A message of more than one part (and at most 255) is written as one PDU per part, part k
      being the PDU of the k-th stride of the body, each within the budget of one message. */
  lemma PduListSplits(s: Submit, mac: (seq<byte>, seq<byte>) -> seq<byte>)
    requires s.Valid() && s.phoneNumber != [] && s.content.Some? && SmsBytes(s.content.value, mac).Ok?
    requires 1 < PlanOf(s, mac).parts < 256
    ensures Splits(PlanOf(s, mac))
    ensures PduList(s, mac) == Ok(Parts(s, PlanOf(s, mac), 0))
  {
    var p := PlanOf(s, mac);
    PartCountFits(|p.body|, |p.udh|, MaxOctets(p.enc));
    PartsFromSlices(s, p, 0);
  }

  /** A message of one part is a single PDU of the content's header and the whole body, within
      the budget of one message. */
  lemma PduListSingle(s: Submit, mac: (seq<byte>, seq<byte>) -> seq<byte>)
    requires s.Valid() && s.phoneNumber != [] && s.content.Some? && SmsBytes(s.content.value, mac).Ok?
    requires PlanOf(s, mac).parts <= 1
    ensures var p := PlanOf(s, mac);
            |p.body| + |ConcatUdh(1, 0, p.udh)| <= MaxOctets(p.enc) &&
            PduList(s, mac) == Ok([SinglePdu(s, p).value])
  {
    var p := PlanOf(s, mac);
    PartCountFits(|p.body|, |p.udh|, MaxOctets(p.enc));
    ConcatUdhLayout(1, 0, p.udh);
  }

  /** With a part count that fits its byte, writing fails exactly when there is no content, the
      content has no body, or no phone number is set, and with the error of the first of these. */
  lemma PduListSucceeds(s: Submit, mac: (seq<byte>, seq<byte>) -> seq<byte>)
    requires s.Valid()
    requires s.content.Some? && SmsBytes(s.content.value, mac).Ok? ==> PlanOf(s, mac).parts < 256
    ensures PduList(s, mac).Ok? <==>
              s.content.Some? && SmsBytes(s.content.value, mac).Ok? && s.phoneNumber != []
    ensures s.content.None? ==> PduList(s, mac) == Err(NullValue)
    ensures s.content.Some? && SmsBytes(s.content.value, mac).Err? ==>
              PduList(s, mac) == Err(SmsBytes(s.content.value, mac).error)
    ensures s.content.Some? && SmsBytes(s.content.value, mac).Ok? && s.phoneNumber == [] ==>
              PduList(s, mac) == Err(PhoneNumberNotSet)
  {
    if s.content.Some? && SmsBytes(s.content.value, mac).Ok? {
      var p := PlanOf(s, mac);
      if s.phoneNumber != [] {
        if p.parts > 1 {
          PduListSplits(s, mac);
        } else {
          PduListSingle(s, mac);
        }
      } else if p.parts > 1 {
        PartCountFits(|p.body|, |p.udh|, MaxOctets(p.enc));
        SliceBounds(p, 0);
        PartFits(p, 0);
        assert PartLength(p, 0, 0) == SliceEnd(p, 0);
      }
    }
  }

  /** The count as written fails a 239-octet push: its three parts take 126 octets each, so the
      copy of the second runs past the end of the body. */
  lemma PartsFromAsWrittenFails(s: Submit, body: seq<byte>, udh: seq<byte>)
    requires s.Valid() && s.phoneNumber != [] && |body| == 239 && |udh| == 6
    ensures PartsFrom(s, Plan(Data8bit, body, udh, PartCountAsWritten(239, 6, 140)), 0, 0) == Err(CopyPastEnd)
  {
    PartCountAsWrittenOverruns();
    var p := Plan(Data8bit, body, udh, 3);
    ConcatUdhLayout(3, 1, udh);
    ConcatUdhLayout(3, 2, udh);
    assert PartLength(p, 0, 0) == 126;
    assert PartLength(p, 1, 126) == 126;
    assert PartsFrom(s, p, 1, 126) == Err(CopyPastEnd);
  }

  /** The count as written overfills the last part of a 3193-character text: it announces 161
      septets of user data, one more than a message holds. */
  lemma PartsAsWrittenOverfill(body: seq<byte>)
    requires |body| == 3193
    ensures var p := Plan(Default7bit, body, [], PartCountAsWritten(3193, 0, 160));
            PartLength(p, 20, 20 * 152) == 153 &&
            PartLength(p, 20, 20 * 152) + |PartUdh(p, 20)| + 1 == 161 > MaxOctets(Default7bit)
  {
    PartCountAsWrittenOverruns();
    ConcatUdhLayout(21, 21, []);
  }

  /** The body of the loop of `GetPDUList` for part i: its header, its encoded slice and the PDU
      around them. */
  method GetPartPdu(s: Submit, p: Plan, i: nat, bodyPart: seq<byte>) returns (pdu: Result<seq<byte>>)
    requires s.Valid()
    ensures pdu == PartPdu(s, p, i, bodyPart)
  {
    var udhByteArray := GetConcatPdu(ByteOf(p.parts), ByteOf(i + 1), p.udh);
    var encodedBody := GetEncodedMessage(p.enc, bodyPart);
    var messageLength := |bodyPart| + |udhByteArray|;
    if p.enc == Default7bit {
      messageLength := messageLength + 1;
    }
    pdu := GetPduBytes(s, p.enc, udhByteArray + encodedBody, messageLength, |udhByteArray| > 0);
  }

  /** One turn of the loop of `GetPDUList`: the PDU of part i and the position after its slice,
      or the error the turn raises. */
  method NextPart(s: Submit, p: Plan, i: nat, pos: nat) returns (r: Result<(seq<byte>, nat)>)
    requires s.Valid() && i < p.parts
    ensures r.Err? ==> PartsFrom(s, p, i, pos) == Err(r.error)
    ensures r.Ok? ==> i + 1 <= p.parts && PartsFrom(s, p, i, pos) == Appended([r.value.0], PartsFrom(s, p, i + 1, r.value.1))
  {
    var udhLength := |ConcatUdh(ByteOf(p.parts), ByteOf(i + 1), p.udh)|;
    var bytesCount;
    if i < p.parts - 1 {
      bytesCount := MaxOctets(p.enc) - udhLength - 1;
    } else {
      bytesCount := |p.body| - pos;
    }
    if bytesCount < 0 {
      return Err(NegativeArrayLength);
    }
    if pos + bytesCount > |p.body| {
      return Err(CopyPastEnd);
    }
    var bodyPart := p.body[pos..pos + bytesCount];
    var pdu := GetPartPdu(s, p, i, bodyPart);
    if pdu.Err? {
      return Err(pdu.error);
    }
    r := Ok((pdu.value, pos + bytesCount));
  }

  /** The loop of `GetPDUList` over the parts of a plan of more than one part. */
  method WriteParts(s: Submit, p: Plan) returns (r: Result<seq<seq<byte>>>)
    requires s.Valid()
    ensures r == PartsFrom(s, p, 0, 0)
  {
    var messagePart: seq<seq<byte>> := [];
    var messagePos := 0;
    var i := 0;
    assert Appended([], PartsFrom(s, p, 0, 0)) == PartsFrom(s, p, 0, 0) by {
      if PartsFrom(s, p, 0, 0).Ok? {
        assert [] + PartsFrom(s, p, 0, 0).value == PartsFrom(s, p, 0, 0).value;
      }
    }
    while i < p.parts
      invariant 0 <= i <= p.parts
      invariant PartsFrom(s, p, 0, 0) == Appended(messagePart, PartsFrom(s, p, i, messagePos))
      decreases p.parts - i
    {
      var next := NextPart(s, p, i, messagePos);
      if next.Err? {
        return Err(next.error);
      }
      AppendedStep(messagePart, next.value.0, PartsFrom(s, p, i + 1, next.value.1));
      messagePart := messagePart + [next.value.0];
      messagePos := next.value.1;
      i := i + 1;
    }
    assert messagePart + [] == messagePart;
    r := Ok(messagePart);
  }

  /** `GetPDUList`. */
  method GetPduList(s: Submit, mac: (seq<byte>, seq<byte>) -> seq<byte>) returns (r: Result<seq<seq<byte>>>)
    requires s.Valid()
    ensures r == PduList(s, mac)
  {
    if s.content.None? {
      return Err(NullValue);
    }
    var content := s.content.value;
    var enc := Encoding(content);
    var maxOctetsCount := MaxOctets(enc);
    var body := SmsBytes(content, mac);
    if body.Err? {
      return Err(body.error);
    }
    var messageUdh := UdhBytes(content);
    UdhBytesShape(content);
    var parts := PartCount(|body.value|, |messageUdh|, maxOctetsCount);
    var p := Plan(enc, body.value, messageUdh, parts);
    assert p == PlanOf(s, mac);
    if parts > 1 {
      r := WriteParts(s, p);
    } else {
      var udhByteArray := GetConcatPdu(1, 0, messageUdh);
      var encodedBody := GetEncodedMessage(enc, body.value);
      var pdu := GetPduBytes(s, enc, udhByteArray + encodedBody, |body.value| + |udhByteArray|, |udhByteArray| > 0);
      assert pdu == SinglePdu(s, p);
      if pdu.Err? {
        return Err(pdu.error);
      }
      r := Ok([pdu.value]);
    }
  }
}
