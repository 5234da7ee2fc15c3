/**
 * TP-PID, the protocol identifier octet (3GPP TS 23.040 section 9.2.3.9), as
 * assembled by SharpSMS.ProtocoldentifierBuilder: one byte field that each
 * setter overwrites.
 */
module ProtocolIdentifier {
  /** The TP-PID message types of the low six bits (SharpSMS/ShortMessageType.cs). */
  datatype ShortMessageType =
    | ShortMessageType0 | ReplaceMessageType1 | ReplaceMessageType2 | ReplaceMessageType3
    | ReplaceMessageType4 | ReplaceMessageType5 | ReplaceMessageType6 | ReplaceMessageType7
    | ReturnCall | MEDataDownload | MEDePersonalization | SIMDataDownload

  function MessageTypeCode(t: ShortMessageType): (b: bv8)
    ensures b < 0x40
  {
    match t
    case ShortMessageType0 => 0x00
    case ReplaceMessageType1 => 0x01
    case ReplaceMessageType2 => 0x02
    case ReplaceMessageType3 => 0x03
    case ReplaceMessageType4 => 0x04
    case ReplaceMessageType5 => 0x05
    case ReplaceMessageType6 => 0x06
    case ReplaceMessageType7 => 0x07
    case ReturnCall => 0x1F
    case MEDataDownload => 0x3D
    case MEDePersonalization => 0x3E
    case SIMDataDownload => 0x3F
  }

  /** The telematic interworking devices a TP-PID can name (SharpSMS/TelematicDevice.cs). */
  datatype TelematicDevice =
    | Implicit | Telex | Group3Telefax | Group4Telefax | VoiceTelephone | ERMES
    | NationalPagingSystem | Videotex | Teletex | TeletexPSDN | TeletexCSPDN | TeletexPSTN
    | TeletexISDN | UCI | MessageHandlingFacility | X400 | Email | GSMMobileStation

  function DeviceCode(d: TelematicDevice): (b: bv8)
    ensures b < 0x20
  {
    match d
    case Implicit => 0x00
    case Telex => 0x01
    case Group3Telefax => 0x02
    case Group4Telefax => 0x03
    case VoiceTelephone => 0x04
    case ERMES => 0x05
    case NationalPagingSystem => 0x06
    case Videotex => 0x07
    case Teletex => 0x08
    case TeletexPSDN => 0x09
    case TeletexCSPDN => 0x0A
    case TeletexPSTN => 0x0B
    case TeletexISDN => 0x0C
    case UCI => 0x0D
    case MessageHandlingFacility => 0x10
    case X400 => 0x11
    case Email => 0x12
    case GSMMobileStation => 0x1F
  }

  const SmeToSmeBits: bv8 := 0x00
  const TelematicDeviceBits: bv8 := 0x20
  const MessageTypeBits: bv8 := 0x40
  /** The SC-specific group: bits 7 and 6 set. */
  const ScSpecificBits: bv8 := 0xC0
  /** The SC-specific constant as the library declares it. */
  const ScSpecificBitsAsWritten: bv8 := 0x0C

  function PidMessageType(t: ShortMessageType): bv8 { MessageTypeBits | MessageTypeCode(t) }

  function PidTelematicDevice(d: TelematicDevice): bv8 { TelematicDeviceBits | DeviceCode(d) }

  /** The byte is shifted left by two and back, so its top two bits are lost. */
  function PidSmeToSme(protocolBits: bv8): bv8 { SmeToSmeBits | ((protocolBits << 2) >> 2) }

  function PidScSpecific(protocolBits: bv8): bv8 { ScSpecificBits | ((protocolBits << 2) >> 2) }

  function PidScSpecificAsWritten(protocolBits: bv8): bv8 { ScSpecificBitsAsWritten | ((protocolBits << 2) >> 2) }

  /** A TP-PID octet read back according to 3GPP TS 23.040 section 9.2.3.9. */
  datatype Pid =
    | SmeToSme(protocol: bv8)
    | Telematic(device: bv8)
    | MessageType(messageType: bv8)
    | Reserved(octet: bv8)
    | ScSpecific(scBits: bv8)

  function DecodePid(b: bv8): Pid
  {
    var group := b & 0xC0;
    if group == 0x00 then (if b & 0x20 == 0 then SmeToSme(b & 0x1F) else Telematic(b & 0x1F))
    else if group == 0x40 then MessageType(b & 0x3F)
    else if group == 0x80 then Reserved(b)
    else ScSpecific(b & 0x3F)
  }

  lemma PidMessageTypeDecodes(t: ShortMessageType)
    ensures DecodePid(PidMessageType(t)) == MessageType(MessageTypeCode(t))
  {
    var c := MessageTypeCode(t);
    assert (0x40 | c) & 0xC0 == 0x40 && (0x40 | c) & 0x3F == c;
  }

  lemma PidTelematicDeviceDecodes(d: TelematicDevice)
    ensures DecodePid(PidTelematicDevice(d)) == Telematic(DeviceCode(d))
  {
    var c := DeviceCode(d);
    assert (0x20 | c) & 0xC0 == 0 && (0x20 | c) & 0x20 != 0 && (0x20 | c) & 0x1F == c;
  }

  /** SME-to-SME keeps the low six bits; bit 5 of the argument turns the octet into telematic interworking. */
  lemma PidSmeToSmeDecodes(protocolBits: bv8)
    ensures PidSmeToSme(protocolBits) == protocolBits & 0x3F
    ensures DecodePid(PidSmeToSme(protocolBits)) ==
      if protocolBits & 0x20 == 0 then SmeToSme(protocolBits & 0x1F) else Telematic(protocolBits & 0x1F)
  {}

  lemma PidScSpecificDecodes(protocolBits: bv8)
    ensures DecodePid(PidScSpecific(protocolBits)) == ScSpecific(protocolBits & 0x3F)
  {}

  /** With the constant as written, an SC-specific value lands in the SME-to-SME group. */
  lemma ScSpecificAsWrittenMisread()
    ensures DecodePid(PidScSpecificAsWritten(0x00)) == SmeToSme(0x0C)
    ensures DecodePid(PidScSpecificAsWritten(0x00)) != ScSpecific(0x00)
    ensures PidScSpecific(0x00) == 0xC0
  {}

  class ProtocolIdentifierBuilder {
    var ptBits: bv8

    /** `new ProtocoldentifierBuilder()`. */
    constructor ()
      ensures ptBits == 0x00
    {
      ptBits := 0x00;
    }

    /** `new ProtocoldentifierBuilder(messageType)`. */
    constructor ForMessageType(messageType: ShortMessageType)
      ensures ptBits == PidMessageType(messageType)
    {
      ptBits := PidMessageType(messageType);
    }

    method SetMessageType(messageType: ShortMessageType)
      modifies this
      ensures ptBits == PidMessageType(messageType)
      ensures DecodePid(ptBits) == MessageType(MessageTypeCode(messageType))
    {
      ptBits := PidMessageType(messageType);
      PidMessageTypeDecodes(messageType);
    }

    method SetTelematicDevice(device: TelematicDevice)
      modifies this
      ensures ptBits == PidTelematicDevice(device)
      ensures DecodePid(ptBits) == Telematic(DeviceCode(device))
    {
      ptBits := PidTelematicDevice(device);
      PidTelematicDeviceDecodes(device);
    }

    method SetSmeToSme(protocolBits: bv8)
      modifies this
      ensures ptBits == protocolBits & 0x3F
    {
      var shifted := protocolBits << 2;
      ptBits := SmeToSmeBits | (shifted >> 2);
    }

    method SetScSpecific(protocolBits: bv8)
      modifies this
      ensures ptBits == PidScSpecific(protocolBits)
      ensures DecodePid(ptBits) == ScSpecific(protocolBits & 0x3F)
    {
      var shifted := protocolBits << 2;
      ptBits := ScSpecificBits | (shifted >> 2);
    }

    method ToByte() returns (b: bv8)
      ensures b == ptBits
    {
      b := ptBits;
    }
  }
}
