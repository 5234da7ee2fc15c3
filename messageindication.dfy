/**
 * TP-DCS, the data coding scheme octet (3GPP TS 23.038 section 4), as built by
 * SharpSMS.MessageIndication: either a general data coding value carrying the
 * alphabet and the message class, or a message-waiting indication group.
 */
module MessageIndication {
  import opened Wrappers
  import opened SmsEnums

  datatype Indication = Indication(
    msgClass: MessageClass,
    kind: IndicationType,
    operation: IndicationOperation,
    isActive: bool)

  /** `new MessageIndication(messageClass)`; the parameterless constructor passes MESpecific. */
  function Create(msgClass: MessageClass): (ind: Indication)
    ensures ind.msgClass == msgClass && ind.kind == Voicemail
    ensures ind.operation == NotSet && !ind.isActive
  {
    Indication(msgClass, Voicemail, NotSet, false)
  }

  function CreateDefault(): (ind: Indication)
    ensures ind == Create(MESpecific)
  {
    Create(MESpecific)
  }

  /** Bits 3..2 of a general data coding value. */
  function EncodingBits(enc: DataEncoding): bv8
  {
    match enc
    case Default7bit => 0x00
    case Data8bit => 0x04
    case UCS2_16bit => 0x08
  }

  /** Bits 1..0 of a general data coding value. */
  function ClassBits(c: MessageClass): bv8
  {
    match c
    case ImmediateDisplay => 0x00
    case MESpecific => 0x01
    case SIMSpecific => 0x02
    case TESpecific => 0x03
  }

  /** Bits 1..0 of a message-waiting value. */
  function KindBits(k: IndicationType): bv8
  {
    match k
    case Voicemail => 0x00
    case FaxMessage => 0x01
    case EmailMessage => 0x02
    case OtherMessage => 0x03
  }

  /** `MessageIndication.GetWaitingIndication`. */
  function WaitingIndication(ind: Indication, enc: DataEncoding): bv8
  {
    var group: bv8 :=
      if ind.operation == Discard then 0xC0
      else if ind.operation == Store && enc == Default7bit then 0xD0
      else if ind.operation == Store && enc == UCS2_16bit then 0xE0
      else 0x00;
    group | (if ind.isActive then 0x08 else 0x00) | KindBits(ind.kind)
  }

  /** `MessageIndication.ToByte`. */
  function ToByte(ind: Indication, enc: DataEncoding): (dcs: bv8)
    ensures ind.operation == NotSet ==> dcs & 0xE0 == 0 && dcs & 0x10 == 0x10
  {
    var general := 0x10 | EncodingBits(enc) | ClassBits(ind.msgClass);
    if ind.operation != NotSet then WaitingIndication(ind, enc) else general
  }

  /** A TP-DCS octet read back according to 3GPP TS 23.038 section 4. */
  datatype Dcs =
    | GeneralDataCoding(compressed: bool, alphabet: Option<DataEncoding>, msgClass: Option<MessageClass>)
    | MessageWaiting(store: bool, waitAlphabet: DataEncoding, active: bool, kind: IndicationType)
    | OtherGroup(octet: bv8)

  function DecodeAlphabet(bits: bv8): Option<DataEncoding>
  {
    if bits == 0x00 then Some(Default7bit)
    else if bits == 0x04 then Some(Data8bit)
    else if bits == 0x08 then Some(UCS2_16bit)
    else None
  }

  function DecodeClass(bits: bv8): MessageClass
  {
    if bits == 0 then ImmediateDisplay else if bits == 1 then MESpecific
    else if bits == 2 then SIMSpecific else TESpecific
  }

  function DecodeKind(bits: bv8): IndicationType
  {
    if bits == 0 then Voicemail else if bits == 1 then FaxMessage
    else if bits == 2 then EmailMessage else OtherMessage
  }

  /** The coding group is the upper nibble; 0000..0011 is general data coding. */
  function DecodeDcs(b: bv8): Dcs
  {
    var group := b & 0xF0;
    if b & 0xC0 == 0x00 then
      GeneralDataCoding(b & 0x20 != 0, DecodeAlphabet(b & 0x0C),
        if b & 0x10 != 0 then Some(DecodeClass(b & 0x03)) else None)
    else if group == 0xC0 then MessageWaiting(false, Default7bit, b & 0x08 != 0, DecodeKind(b & 0x03))
    else if group == 0xD0 then MessageWaiting(true, Default7bit, b & 0x08 != 0, DecodeKind(b & 0x03))
    else if group == 0xE0 then MessageWaiting(true, UCS2_16bit, b & 0x08 != 0, DecodeKind(b & 0x03))
    else OtherGroup(b)
  }

  /** Without an operation the octet is an uncompressed general data coding value with the class set. */
  lemma ToByteGeneral(ind: Indication, enc: DataEncoding)
    requires ind.operation == NotSet
    ensures DecodeDcs(ToByte(ind, enc)) == GeneralDataCoding(false, Some(enc), Some(ind.msgClass))
  {
    var dcs := ToByte(ind, enc);
    assert dcs & 0x0C == EncodingBits(enc) && dcs & 0x03 == ClassBits(ind.msgClass) by {
      match enc {
        case Default7bit =>
        case Data8bit =>
        case UCS2_16bit =>
      }
    }
    assert dcs & 0xC0 == 0 && dcs & 0x20 == 0 && dcs & 0x10 != 0;
  }

  /** Discard, and Store with the 7-bit or UCS2 alphabet, give a message-waiting group that reads back
      the operation, the active flag and the indication type; the message class is dropped. */
  lemma ToByteWaiting(ind: Indication, enc: DataEncoding)
    requires ind.operation == Discard || (ind.operation == Store && enc != Data8bit)
    ensures DecodeDcs(ToByte(ind, enc)) ==
      MessageWaiting(ind.operation == Store, if ind.operation == Store then enc else Default7bit,
                     ind.isActive, ind.kind)
    ensures forall c: MessageClass :: ToByte(ind.(msgClass := c), enc) == ToByte(ind, enc)
  {
    var dcs := ToByte(ind, enc);
    assert dcs & 0x03 == KindBits(ind.kind) && DecodeKind(KindBits(ind.kind)) == ind.kind by {
      match ind.kind {
        case Voicemail =>
        case FaxMessage =>
        case EmailMessage =>
        case OtherMessage =>
      }
    }
    assert (dcs & 0x08 != 0) == ind.isActive;
  }

  /** Store with 8-bit data gets no group bits: the octet reads back as general data coding
      without a class, so the waiting indication is lost, and the active bit lands in the
      alphabet field, misreporting 8-bit data as GSM 7-bit (inactive) or UCS2 (active). */
  lemma StoreWith8BitLosesIndication(ind: Indication)
    requires ind.operation == Store
    ensures DecodeDcs(ToByte(ind, Data8bit)) ==
      GeneralDataCoding(false, Some(if ind.isActive then UCS2_16bit else Default7bit), None)
    ensures ToByte(ind, Data8bit) < 0x10
  {
    var dcs := ToByte(ind, Data8bit);
    assert dcs & 0xF0 == 0 by {
      match ind.kind {
        case Voicemail =>
        case FaxMessage =>
        case EmailMessage =>
        case OtherMessage =>
      }
    }
  }

  /** The SMSSubmit default indication gives 0x11 for 7-bit text; Discard, active, Voicemail gives 0xC8. */
  lemma ToByteExamples()
    ensures ToByte(CreateDefault(), Default7bit) == 0x11
    ensures ToByte(Indication(MESpecific, Voicemail, Discard, true), Default7bit) == 0xC8
    ensures ToByte(CreateDefault(), UCS2_16bit) == 0x19
  {}
}
