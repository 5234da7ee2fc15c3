# SharpSMS encoders in Dafny

SharpSMS is a C# library that only encodes. It turns a message description into the octets a GSM
modem sends:

- an SMS-SUBMIT PDU (3GPP TS 23.040 section 9.2.2.2), split into concatenated parts when the
  body does not fit one message;
- the TP-DCS octet (3GPP TS 23.038 section 4) and the TP-PID octet (TS 23.040 section 9.2.3.9);
- WAP Push content: a connectionless WSP Push PDU (WAP-230-WSP) behind an application-port user
  data header (TS 23.040 section 9.2.3.24.4);
- WBXML Service Indication and Service Loading documents (WAP-192-WBXML, WAP-167, WAP-168), with
  href compression.

This project models those encoders and proves what they promise. Streams are `seq<byte>`, where
`byte` is an `int` from 0 to 255 and every C# `(byte)` cast is written out as a remainder mod 256.
Each `Write*` method that appends to a `MemoryStream` becomes a method that takes the stream and
returns it extended. Each such method is proved equal to a function that says what it writes. The
lemmas beside that function state:

- the layout;
- the round trip through a reader written for the purpose;
- the error cases: every .NET exception the code can raise is an `Err` of `Wrappers.Error`.

`ProtocoldentifierBuilder` updates one field in place, so it is a class. The other entities are
values: submits, contents, pushes and documents.

| file | module | source |
|---|---|---|
| wrappers.dfy | `Wrappers` | Option, Result, the exceptions |
| arith.dfy | `Arith` | octets and the `(byte)` cast |
| radix.dfy | `Radix` | digits in base 2^w, used by the integer encoders |
| smsenums.dfy | `SmsEnums` | DataEncoding.cs, MessageClass.cs, IndicationType.cs, MessageIndicationOperation.cs |
| smsheader.dfy | `SmsHeader` | first octet, validity period, address field of SMSSubmit.cs |
| septets.dfy | `Septets` | `OctetsToSeptets` and `PowSum` of SMSSubmit.cs |
| smssubmit.dfy | `SmsSubmit` | the rest of SMSSubmit.cs |
| content.dfy | `SmsContent` | ISmsMessageContent.cs as a closed set of three contents |
| messageindication.dfy | `MessageIndication` | MessageIndication.cs |
| protocolidentifier.dfy | `ProtocolIdentifier` | ProtocoldentifierBuilder.cs, ShortMessageType.cs, TelematicDevice.cs |
| text.dfy | `Text` | the .NET text encodings and string helpers the encoders call |
| wsp.dfy, wsptables.dfy, wspheaders.dfy | `Wsp`, `WspTables`, `WspHeaders` | Wap/Wsp.cs |
| wdp.dfy | `Wdp` | Wap/WdpMessage.cs, Wap/Wdp.cs |
| wdpbinary.dfy | `WdpBinaryMessage` | Wap/WdpBinaryMessage.cs |
| wappush.dfy | `WapPushMessage` | Wap/WapPushMessage.cs |
| textmessage.dfy | `TextMessage` | TextMessage.cs |
| wbxmldocument.dfy | `WbxmlDocument` | Wbxml/WBXMLDocument.cs |
| hreftokens.dfy | `HrefTokens` | the href compression shared by ServiceIndication.cs and ServiceLoading.cs |
| serviceindication.dfy | `ServiceIndication` | Wbxml/ServiceIndication.cs, Wbxml/ServiceIndicationAction.cs |
| serviceloading.dfy | `ServiceLoading` | Wbxml/ServiceLoading.cs, Wbxml/ServiceLoadingAction.cs |

The concatenation header's length octet is `6 + |udh|`, because `concatHeader.Length` is 6: the
element identifier, its length and four data octets. That value is also what TS 23.040 calls for,
since the UDHL octet does not count itself.

## Model

| member | source | states |
|---|---|---|
| SmsSubmit.NewSubmit | SharpSMS/SMSSubmit.cs:98-111 | a new submit has no delivery report, no validity period, reference and PID 0, no number, and the indication (MESpecific, Voicemail, NotSet, inactive) |
| SmsSubmit.EncodedLength | SharpSMS/SMSSubmit.cs:229-242 | 7-bit packing of n octets gives n - n/8 octets, other alphabets leave the body unchanged, and a body within the 160/140 budget encodes to at most 140 octets |
| SmsSubmit.GetEncodedMessage | SharpSMS/SMSSubmit.cs:229-242 | returns the septet packing of the data for 7-bit and the data itself otherwise |
| SmsSubmit.ConcatUdhLayout | SharpSMS/SMSSubmit.cs:249-275 | the header is empty exactly when there is one part and no content header; its first octet counts the octets after it; with more parts it is `08 04 00 01 parts sequence` followed by the content header |
| SmsSubmit.GetConcatPdu | SharpSMS/SMSSubmit.cs:249-275 | writes `ConcatUdh` (see ConcatUdhLayout) |
| SmsSubmit.ValidityPart | SharpSMS/SMSSubmit.cs:319-320 | the TP-VP octet is present exactly when a validity period is set |
| SmsSubmit.PduHeader | SharpSMS/SMSSubmit.cs:304-328 | the header fails exactly when the phone number is empty, with the argument exception |
| SmsSubmit.PduHeaderLayout | SharpSMS/SMSSubmit.cs:304-348 | the SMSC length 00 (the modem's own service centre), then the first octet with the validity and UDHI flags, the message reference, the address field, PID, DCS of the indication, the relative validity when set, and the user data length mod 256 |
| SmsSubmit.GetPduHeader | SharpSMS/SMSSubmit.cs:304-328 | writes `PduHeader`, failing at `WritePhoneNumber` without a number |
| SmsSubmit.PduBytes | SharpSMS/SMSSubmit.cs:283-296 | a PDU fails exactly when the phone number is empty |
| SmsSubmit.PduBytesLayout | SharpSMS/SMSSubmit.cs:283-296 | a PDU is its header followed by the user data, and both can be cut back out of it |
| SmsSubmit.GetPduBytes | SharpSMS/SMSSubmit.cs:283-296 | writes `PduBytes` |
| SmsSubmit.PartCountFits | SharpSMS/SMSSubmit.cs:144-153 | with the corrected count, a single part's body and content header fit the budget, and past one part the body lies strictly between parts - 1 and parts strides |
| SmsSubmit.CeilDivAtMostOne | SharpSMS/SMSSubmit.cs:149 | the ceiling estimate is at most one exactly when the body fits the room, and zero exactly for an empty body |
| SmsSubmit.PartCountAsWrittenOverruns | SharpSMS/SMSSubmit.cs:149-153 | the count as written is 3 for a 239-octet push with a 6-octet header, where 2 strides already cover the body; it is 21 for a 3193-octet text, whose last part would need 161 septets; the corrected counts are 2 and 22 |
| SmsSubmit.PartCountAsWrittenFitsWithFewer | SharpSMS/SMSSubmit.cs:149-182 | for a 2377-octet 8-bit body the count as written is 18, and its last part fills the 140 octets exactly; the corrected count is 19 |
| SmsSubmit.PlanOf | SharpSMS/SMSSubmit.cs:121-153 | the plan holds the content's alphabet, body and header (at most 6 octets), and the corrected part count for the 160/140 budget |
| SmsSubmit.SliceBounds | SharpSMS/SMSSubmit.cs:176-198 | every slice starts inside the body where the previous one ended, takes at most one stride, and all but the last take exactly one |
| SmsSubmit.PartFits | SharpSMS/SMSSubmit.cs:176-192 | every part's slice is non-empty, its header is 7 + the content header, and slice, header and the 7-bit fill octet fit the budget |
| SmsSubmit.PartsFromStep | SharpSMS/SMSSubmit.cs:170-202 | one turn of the part loop writes the PDU of part i's slice and continues at the next slice |
| SmsSubmit.Parts | SharpSMS/SMSSubmit.cs:165-202 | the PDUs of parts i onwards, one per remaining part |
| SmsSubmit.PartsCons | SharpSMS/SMSSubmit.cs:170-202 | the PDUs from part i are part i's PDU followed by those from part i + 1 |
| SmsSubmit.PartsFromSlices | SharpSMS/SMSSubmit.cs:165-202 | the part loop succeeds on a splitting plan and writes, in order, the PDU of each slice |
| SmsSubmit.PduListSplits | SharpSMS/SMSSubmit.cs:165-202 | a message of 2 to 255 parts is written as exactly `parts` PDUs; PDU k carries part k's slice with sequence k + 1 under the same reference and count |
| SmsSubmit.PduListSingle | SharpSMS/SMSSubmit.cs:204-221 | a message estimated at one part or none fits one message and is written as a single PDU with no concatenation element |
| SmsSubmit.PduListSucceeds | SharpSMS/SMSSubmit.cs:121-224 | writing succeeds exactly when there is content, its body is not null and the number is set; each failure gives its own exception |
| SmsSubmit.PartsFromAsWrittenFails | SharpSMS/SMSSubmit.cs:176-182 | with the count as written, the 239-octet push fails in `Array.Copy` past the end of the body |
| SmsSubmit.PartsAsWrittenOverfill | SharpSMS/SMSSubmit.cs:176-192 | with the count as written, the last part of a 3193-octet text takes 153 septets and announces a user data length of 161 > 160 |
| SmsSubmit.GetPartPdu | SharpSMS/SMSSubmit.cs:173-200 | writes the PDU of part i from its header, encoded slice and user data length |
| SmsSubmit.NextPart | SharpSMS/SMSSubmit.cs:170-202 | one turn of the loop: on failure the loop fails the same way, otherwise the PDU written is the head of what the loop writes from there |
| SmsSubmit.WriteParts | SharpSMS/SMSSubmit.cs:165-202 | the loop over the parts writes `PartsFrom` from the first part and the start of the body |
| SmsSubmit.GetPduList | SharpSMS/SMSSubmit.cs:121-224 | writes `PduList` (see PduListSplits, PduListSingle, PduListSucceeds) |
| SmsHeader.FirstOctet | SharpSMS/SMSSubmit.cs:334-348 | TP-MTI is SMS-SUBMIT, bits 7 and 3-2 are clear, and TP-VPF, TP-SRR and TP-UDHI are each set exactly when their flag is |
| SmsHeader.ValidityMinutes | SharpSMS/SMSSubmit.cs:354-374 | the period a relative TP-VP octet stands for is at least five minutes |
| SmsHeader.ValidityWithinFactorTwo | SharpSMS/SMSSubmit.cs:354-374 | the corrected encoding never exceeds the requested period (beyond the five-minute minimum), and up to 441 days it is at least half of it |
| SmsHeader.ValidityAsWrittenCounterexamples | SharpSMS/SMSSubmit.cs:359-371 | as written, 3 minutes encodes to 255 (63 weeks), 12 h 30 min to 149 (15 hours), and 1 day or 1 hour to 0 (5 minutes); the corrected values are 0, 144, 167 and 11 |
| SmsHeader.ValidityBandExamples | SharpSMS/SMSSubmit.cs:359-371 | both versions agree away from the defective edges: 2 days is 168, 441 days is 255, 1000 days is clamped to 440 days and gives 254, 13 h 30 min is 146, 2 hours is 23, a negative span is 0 |
| SmsHeader.DigitNibble | SharpSMS/SMSSubmit.cs:415-459 | every UTF-16 unit, a surrogate included, gives a semi-octet below 16 |
| SmsHeader.NibbleCharOfDigit | SharpSMS/SMSSubmit.cs:415-459 | on the units of the dial characters 0-9 * # a b the semi-octet table is inverted by `NibbleChar` |
| SmsHeader.Bcd | SharpSMS/SMSSubmit.cs:407-480 | n UTF-16 units take ceil(n/2) octets |
| SmsHeader.BcdSemiOctets | SharpSMS/SMSSubmit.cs:407-480 | UTF-16 unit i is semi-octet i, the earlier one of each pair in the low nibble, and an odd count is filled with F |
| SmsHeader.BcdRoundTrip | SharpSMS/SMSSubmit.cs:407-480 | a number of dial characters is one unit per character and reads back from its semi-octets |
| SmsHeader.DecodeDialUnits | SharpSMS/SMSSubmit.cs:407-480 | when every unit is its dial character, the first n semi-octets read back as the first n characters |
| SmsHeader.WriteBcdNumber | SharpSMS/SMSSubmit.cs:407-480 | the nibble accumulator loop over `phoneNumber.Length` units appends exactly `Bcd(Utf16Units(phoneNumber))` |
| SmsHeader.AddressFieldLayout | SharpSMS/SMSSubmit.cs:381-400 | the address fails exactly for the empty number; otherwise it is the UTF-16 length of the digits mod 256, 0x91 exactly for a leading + (which is dropped) and 0x81 otherwise, then one semi-octet per unit; for dial characters the length is the digit count and the semi-octets read back as the digits |
| SmsHeader.WritePhoneNumber | SharpSMS/SMSSubmit.cs:381-400 | fails exactly on the empty number with the argument exception, otherwise appends the address field, its length octet `(byte)phoneNumber.Length` in UTF-16 units |
| SmsHeader.AddressFieldOfSurrogatePair | SharpSMS/SMSSubmit.cs:395-415 | "1" and U+1F600 count as three units: 03 81 01 F0, the two surrogates each giving semi-octet 0 |
| Septets.PowSum | SharpSMS/SMSSubmit.cs:528-536 | the loop sums 2^i from n down to startBit: 2^(n+1) - 2^startBit, 0 for an empty range, and no negative exponent adds anything |
| Septets.Pack | SharpSMS/SMSSubmit.cs:486-521 | the packed form has one octet per character whose position is not 7 mod 8 |
| Septets.PackAt | SharpSMS/SMSSubmit.cs:499-516 | the octet of character i sits at its packed index and is `c[i] >> m` with the low m + 1 bits of `c[i+1]` (zero after the last character) shifted above it, mod 256, where m = i mod 8 |
| Septets.PackCharacterised | SharpSMS/SMSSubmit.cs:486-521 | any sequence of the packed length holding each character's octet at its packed index is the packed form |
| Septets.PackLength | SharpSMS/SMSSubmit.cs:486-521 | packing n octets gives n - n/8 octets, exactly 7n/8 when 8 divides n |
| Septets.OctetsToSeptets | SharpSMS/SMSSubmit.cs:486-521 | the in-place loop over the working array (input plus a zero octet) returns the packed form |
| Septets.PackCharacter | SharpSMS/SMSSubmit.cs:499-516 | one step: the AND with `PowSum(0, m)` moves the low m + 1 bits of the next octet into the top of this one and clears them there; later octets are untouched |
| Septets.PackRoundTrip | SharpSMS/SMSSubmit.cs:486-521 | unpacking the packed form of 7-bit characters gives them back |
| Septets.CharacterRoundTrip | SharpSMS/SMSSubmit.cs:486-521 | every 7-bit character reads back from the two octets around its packed index |
| SmsContent.SmsBytes | SharpSMS/ISmsMessageContent.cs:21 | a text gives its encoded text, a binary message its data (null data fails), a push its WSP header and data |
| SmsContent.UdhBytesShape | SharpSMS/ISmsMessageContent.cs:27 | plain text carries no header; both WAP contents carry the six-octet application-port element |
| MessageIndication.Create | SharpSMS/MessageIndication.cs:87-93 | the class is the given one, the type Voicemail, no operation, inactive |
| MessageIndication.CreateDefault | SharpSMS/MessageIndication.cs:78-81 | the parameterless constructor is the MESpecific one |
| MessageIndication.ToByte | SharpSMS/MessageIndication.cs:100-126 | without an operation bits 7-5 are clear and bit 4 (class present) is set |
| MessageIndication.ToByteGeneral | SharpSMS/MessageIndication.cs:100-121 | without an operation the octet reads back under TS 23.038 as uncompressed general data coding with the alphabet and the class |
| MessageIndication.ToByteWaiting | SharpSMS/MessageIndication.cs:122-165 | Discard, and Store with 7-bit or UCS2, read back as the message-waiting group with the activity and the type; the class is ignored |
| MessageIndication.StoreWith8BitLosesIndication | SharpSMS/MessageIndication.cs:137-142 | Store with 8-bit data gets no group bits, so the octet is below 0x10 and reads back as general data coding with no class |
| MessageIndication.ToByteExamples | SharpSMS/MessageIndication.cs:78-165 | the default indication gives 0x11 for 7-bit and 0x19 for UCS2; Discard, active, Voicemail gives 0xC8 |
| ProtocolIdentifier.MessageTypeCode | SharpSMS/ShortMessageType.cs:1-57 | every message type fits the low six bits |
| ProtocolIdentifier.DeviceCode | SharpSMS/TelematicDevice.cs:1-81 | every device fits the low five bits |
| ProtocolIdentifier.PidMessageTypeDecodes | SharpSMS/ProtocoldentifierBuilder.cs:51-54 | `0x40 \| type` reads back as the message-type group with that type |
| ProtocolIdentifier.PidTelematicDeviceDecodes | SharpSMS/ProtocoldentifierBuilder.cs:60-63 | `0x20 \| device` reads back as telematic interworking with that device |
| ProtocolIdentifier.PidSmeToSmeDecodes | SharpSMS/ProtocoldentifierBuilder.cs:69-73 | the shift left and right by two keeps the low six bits; bit 5 of the argument turns the octet into telematic interworking |
| ProtocolIdentifier.PidScSpecificDecodes | SharpSMS/ProtocoldentifierBuilder.cs:79-83 | with the constant 0xC0 the octet reads back as the SC-specific group with the low six bits |
| ProtocolIdentifier.ScSpecificAsWrittenMisread | SharpSMS/ProtocoldentifierBuilder.cs:79-83 | with the constant 0x0C of line 24 as written, `SetSCSpecific(0)` reads back as SME-to-SME protocol 0x0C, not SC-specific |
| ProtocolIdentifier.ProtocolIdentifierBuilder.constructor | SharpSMS/ProtocoldentifierBuilder.cs:31-34 | the field starts at 0x00 |
| ProtocolIdentifier.ProtocolIdentifierBuilder.ForMessageType | SharpSMS/ProtocoldentifierBuilder.cs:40-43 | the field starts as the message-type value |
| ProtocolIdentifier.ProtocolIdentifierBuilder.SetMessageType | SharpSMS/ProtocoldentifierBuilder.cs:51-54 | the field is overwritten with `0x40 \| type`, which reads back as that type |
| ProtocolIdentifier.ProtocolIdentifierBuilder.SetTelematicDevice | SharpSMS/ProtocoldentifierBuilder.cs:60-63 | the field is overwritten with `0x20 \| device`, which reads back as that device |
| ProtocolIdentifier.ProtocolIdentifierBuilder.SetSmeToSme | SharpSMS/ProtocoldentifierBuilder.cs:69-73 | the field is overwritten with the low six bits of the argument |
| ProtocolIdentifier.ProtocolIdentifierBuilder.SetScSpecific | SharpSMS/ProtocoldentifierBuilder.cs:79-83 | the field is overwritten with the corrected SC-specific value, which reads back as SC-specific |
| ProtocolIdentifier.ProtocolIdentifierBuilder.ToByte | SharpSMS/ProtocoldentifierBuilder.cs:89-92 | returns the field and changes nothing |
| Text.Utf8 | SharpSMS/Wap/Wsp.cs:192-210 | UTF-8 is at least one octet per character, empty only for the empty string, and NUL-free text gives NUL-free octets |
| Text.Utf8Append | SharpSMS/Wap/Wsp.cs:192-210 | UTF-8 encodes a concatenation piece by piece |
| Text.Ascii | SharpSMS/TextMessage.cs:56 | one octet per character, '?' for anything above 0x7F |
| Text.Latin1 | SharpSMS/TextMessage.cs:59 | one octet per character, '?' for anything above 0xFF |
| Text.Utf16Length | SharpSMS/Wap/Wsp.cs:331 | `String.Length` counts at least one unit per character, exactly one for ASCII |
| Text.Utf16ShorterThanUtf8 | SharpSMS/Wap/Wsp.cs:331-332 | the UTF-16 length never exceeds the UTF-8 length, and equals it exactly for ASCII text |
| Text.Utf16UnitsOf | SharpSMS/SMSSubmit.cs:415 | one unit below U+10000, otherwise a high then a low surrogate, the first being `FirstUtf16Unit` |
| Text.Utf16CharUnits | SharpSMS/TextMessage.cs:62 | `BigEndianUnicode` writes each unit high octet first |
| Text.Utf16Units | SharpSMS/SMSSubmit.cs:395-415 | as many units as `String.Length`, each below 0x10000 |
| Text.Utf16UnitsBmp | SharpSMS/SMSSubmit.cs:395-415 | a string below U+10000 is its own units, one per character |
| Text.IndexOf | SharpSMS/Wbxml/ServiceIndication.cs:171 | the result is where the pattern first occurs, or None when it occurs nowhere |
| Text.ToLower | SharpSMS/Wap/Wsp.cs:327 | only A-Z change, each to its lower-case letter |
| Text.Trim | SharpSMS/Wap/WapPushMessage.cs:189 | the result is a slice of the input with only white space before and after it, and it neither starts nor ends with white space |
| Text.TrimStartDrops | SharpSMS/Wap/WapPushMessage.cs:189 | every character the start trim drops satisfies the white-space test |
| Text.TrimEndDrops | SharpSMS/Wap/WapPushMessage.cs:189 | every character the end trim drops satisfies the white-space test |
| Text.TrimUnchanged | SharpSMS/Wap/WapPushMessage.cs:189 | a string without white space at either end is its own trim |
| Text.HexByte | SharpSMS/Wap/Wsp.cs:420 | `ToString("X2")` is two ASCII characters |
| Text.HexStringDigits | SharpSMS/Wap/Wsp.cs:418-420 | the MAC text holds only 0-9 and A-F |
| Text.HexByteRoundTrip | SharpSMS/Wap/Wsp.cs:420 | parsing the two-digit form of an octet gives the octet |
| Text.HexByteInjective | SharpSMS/Wap/Wsp.cs:420 | different octets have different two-digit forms |
| Text.HexStringRoundTrip | SharpSMS/Wap/Wsp.cs:418-420 | the hex text of a MAC reads back as the MAC |
| Text.HexDigitValue | SharpSMS/Wap/WapPushMessage.cs:213 | a hex digit of either case has a value below 16, and nothing else has one |
| WspTables.FirstIndexSpec | SharpSMS/Wap/Wsp.cs:163-182 | the search finds the first equal entry, and -1 exactly when there is none |
| WspTables.GetContentType | SharpSMS/Wap/Wsp.cs:163-169 | the result is -1 or a token up to 0x4B, so a hit always fits a short-integer |
| WspTables.GetContentTypeSpec | SharpSMS/Wap/Wsp.cs:163-169 | a hit names the entry with that token, and -1 is returned exactly when the table lacks the name |
| WspTables.LowercaseLookupMissesMixedCaseEntries | SharpSMS/Wap/Wsp.cs:49-50 | looked up with the key lower-cased (line 327), the entries holding upper-case letters, tokens 0x06 and 0x07, can never be found through the lower-cased lookup |
| WspTables.ApplicationTypeCode | SharpSMS/Wap/Wsp.cs:129-153 | every registered code is at most 0x0A or between 0x8000 and 0x8010 |
| WspTables.GetApplicationType | SharpSMS/Wap/Wsp.cs:176-182 | the result is -1 or a registered code |
| WspTables.GetApplicationTypeSpec | SharpSMS/Wap/Wsp.cs:176-182 | a hit is the code of an entry with that name, and -1 is returned exactly when the table lacks the name |
| Wsp.ShortInteger | SharpSMS/Wap/Wsp.cs:244-247 | the octet has bit 7 set and keeps the low seven bits of the value |
| Wsp.WriteShortInteger | SharpSMS/Wap/Wsp.cs:244-247 | appends exactly one octet, the short-integer |
| Wsp.UintvarRoundTrip | SharpSMS/Wap/Wsp.cs:276-294 | the uintvar decoder recovers the value and consumes exactly the encoding, whatever follows |
| Wsp.UintvarFlags | SharpSMS/Wap/Wsp.cs:284-293 | every octet but the last has bit 7 set, the last has it clear, and a longer encoding does not start with an empty group |
| Wsp.UintvarMinimal | SharpSMS/Wap/Wsp.cs:278-282 | the octet count is the least n >= 1 with `x >> 7n == 0` |
| Wsp.UintvarExamples | SharpSMS/Wap/Wsp.cs:276-294 | 0 is 00, 127 is 7F and 128 is 81 00 |
| Wsp.UintvarOctet | SharpSMS/Wap/Wsp.cs:284-293 | octet j is 7-bit group j, plus 0x80 on all but the last |
| Wsp.WriteUintvar | SharpSMS/Wap/Wsp.cs:276-294 | the counting loop and the writing loop append exactly the uintvar |
| Wsp.LongIntegerRoundTrip | SharpSMS/Wap/Wsp.cs:254-269 | below 2^56, the long-integer reads back as the value and consumes exactly its octets |
| Wsp.LongIntegerMinimal | SharpSMS/Wap/Wsp.cs:256-261 | the length octet is the octet count, 0 encodes as 00, and no value octet is a leading zero |
| Wsp.ParseLongIntegerOf | SharpSMS/Wap/Wsp.cs:254-269 | a length up to 30 and that many octets read back as their big-endian value |
| Wsp.WriteLongInteger | SharpSMS/Wap/Wsp.cs:254-269 | the counting loop and the writing loop append exactly the long-integer |
| Wsp.IntegerRoundTrip | SharpSMS/Wap/Wsp.cs:231-237 | an integer, short below 128 and long otherwise, reads back as the value |
| Wsp.WriteInteger | SharpSMS/Wap/Wsp.cs:231-237 | appends the short form below 128 and the long form otherwise |
| Wsp.ValueLengthRoundTrip | SharpSMS/Wap/Wsp.cs:301-315 | a value-length reads back as the length and consumes exactly its octets |
| Wsp.LongValueLengthRoundTrip | SharpSMS/Wap/Wsp.cs:309-314 | above 30 the length is Length-quote followed by a uintvar |
| Wsp.ValueLengthExamples | SharpSMS/Wap/Wsp.cs:301-315 | 30 is 1E and 45 is 1F 2D |
| Wsp.WriteValueLength | SharpSMS/Wap/Wsp.cs:301-315 | appends one octet for 0..30, otherwise 31 and the uintvar |
| Wsp.TextString | SharpSMS/Wap/Wsp.cs:208-224 | a text-string is as long as an optional Quote, the UTF-8 octets and a NUL, and its last octet is that NUL |
| Wsp.TextStringFirst | SharpSMS/Wap/Wsp.cs:214-217 | the first octet is the Quote exactly when the writer added one |
| Wsp.TextStringRoundTrip | SharpSMS/Wap/Wsp.cs:208-224 | a NUL-free text not starting with DEL reads back as its UTF-8 octets, consuming exactly the text-string |
| Wsp.QuoteMatchesFirstOctet | SharpSMS/Wap/Wsp.cs:214 | below U+0100, the Quote is written exactly when the first UTF-8 octet is 0x80 or above |
| Wsp.QuoteMissedForU0100 | SharpSMS/Wap/Wsp.cs:214 | from U+0100 on, the test reads the UTF-16 unit rather than the octet: U+0100 starts with octet C4 and gets no Quote |
| Wsp.TextStringOfAscii | SharpSMS/Wap/Wsp.cs:208-224 | an ASCII text is never quoted and is framed as its own octets and a NUL |
| Wsp.WriteTextString | SharpSMS/Wap/Wsp.cs:208-224 | the empty text fails at `text[0]` before anything is written; otherwise appends the text-string |
| Wsp.ExtensionMedia | SharpSMS/Wap/Wsp.cs:192-201 | the UTF-8 octets and a NUL, never quoted |
| Wsp.WriteExtensionMedia | SharpSMS/Wap/Wsp.cs:192-201 | appends the extension-media |
| WspHeaders.ContentTypeHeaderKnown | SharpSMS/Wap/Wsp.cs:325-338 | a content type the table knows, after lower-casing, is the single octet token + 0x80 |
| WspHeaders.ContentTypeHeaderUnknown | SharpSMS/Wap/Wsp.cs:329-333 | any other content type is written as its literal |
| WspHeaders.ContentTypeLiteralFraming | SharpSMS/Wap/Wsp.cs:331-332 | an ASCII literal is the value-length of length + 1, the original (not lower-cased) octets and a NUL, so the value-length counts exactly what follows it |
| WspHeaders.ContentTypeLiteralMiscounts | SharpSMS/Wap/Wsp.cs:331-332 | for a non-ASCII literal the value-length counts UTF-16 units and falls short of the octets written |
| WspHeaders.WriteHeaderContentType | SharpSMS/Wap/Wsp.cs:325-338 | appends the content-type value for the lower-cased lookup |
| WspHeaders.WriteContentTypeValue | SharpSMS/Wap/Wsp.cs:329-337 | appends the token or the literal for the lookup result |
| WspHeaders.LongIntegerTwoOctets | SharpSMS/Wap/Wsp.cs:354 | a code from 0x100 to 0xFFFF is written as 02, high octet, low octet |
| WspHeaders.AppIdHeaderKnown | SharpSMS/Wap/Wsp.cs:345-355 | a registered application is 0xAF, then its code as a short-integer below 0x80 or as `[0x02, hi, lo]`, which reads back as the code |
| WspHeaders.AppIdNamed | SharpSMS/Wap/Wsp.cs:349-352 | an unregistered application is 0xAF and its name as a text-string, which reads back; the empty name fails |
| WspHeaders.AppIdHeaderUnknown | SharpSMS/Wap/Wsp.cs:351-352 | a name the table lacks is written by name |
| WspHeaders.WriteHeaderXWAPApplicationID | SharpSMS/Wap/Wsp.cs:345-355 | appends the application-ID header for the lower-cased lookup, or fails with it |
| WspHeaders.WriteAppIdValue | SharpSMS/Wap/Wsp.cs:349-354 | appends 0xAF and the code or the name for the lookup result |
| WspHeaders.TextHeaderRoundTrip | SharpSMS/Wap/Wsp.cs:362-377 | a URI header is its field name as a short-integer and the URI as a text-string that reads back; the empty URI fails |
| WspHeaders.WriteHeaderXWAPInitiatorURI | SharpSMS/Wap/Wsp.cs:362-366 | appends 0xB1 and the text-string |
| WspHeaders.WriteHeaderXWAPContentURI | SharpSMS/Wap/Wsp.cs:373-377 | appends 0xB0 and the text-string |
| WspHeaders.PushFlagHeaderRoundTrip | SharpSMS/Wap/Wsp.cs:384-388 | the header is B4 and the flag with bit 7 set; a flag below 0x80 reads back as an integer |
| WspHeaders.WriteHeaderPushFlag | SharpSMS/Wap/Wsp.cs:384-388 | appends the push-flag header |
| WspHeaders.SecurityMethodCode | SharpSMS/Wap/Wsp.cs:400-414 | one short-integer per method, none for `None` |
| WspHeaders.SecurityHeaderShape | SharpSMS/Wap/Wsp.cs:396-422 | 0x91, the method code, 0x92 and the upper-case hex of the MAC as a text-string that reads back |
| WspHeaders.SecurityMacRecovered | SharpSMS/Wap/Wsp.cs:418-421 | the MAC text reads back as the MAC, and its UTF-8 octets are its ASCII octets |
| WspHeaders.SecurityHeaderFails | SharpSMS/Wap/Wsp.cs:421 | an empty MAC gives the empty text, which fails at `text[0]` |
| WspHeaders.WriteHeaderSecurity | SharpSMS/Wap/Wsp.cs:396-422 | appends the security header or fails with it |
| WspHeaders.WriteSecurityFields | SharpSMS/Wap/Wsp.cs:398-416 | appends the field names and the method code |
| WspHeaders.MacText | SharpSMS/Wap/Wsp.cs:418-420 | the `foreach` builds the hex text of the MAC |
| Wdp.BigEndianAsWritten | SharpSMS/Wap/WdpMessage.cs:53-62 | as written, the last octet holds the number mod 256 |
| Wdp.ToBigEndianAsWritten | SharpSMS/Wap/WdpMessage.cs:53-62 | the loop as written stores `BigEndianAsWritten`, and a zero length fails on the first store |
| Wdp.BigEndianAsWrittenMisorders | SharpSMS/Wap/WdpMessage.cs:57-59 | as written, 0x010203 in three octets comes out as 02 01 03 instead of 01 02 03 |
| Wdp.BigEndianAsWrittenAgreesAtTwo | SharpSMS/Wap/WdpMessage.cs:53-62 | for the two-octet ports the header uses, the written order is right |
| Wdp.BigEndian | SharpSMS/Wap/WdpMessage.cs:53-62 | the corrected form has `byteLen` octets |
| Wdp.BigEndianAt | SharpSMS/Wap/WdpMessage.cs:53-62 | octet i is the number shifted right by 8(byteLen - 1 - i) |
| Wdp.BigEndianValue | SharpSMS/Wap/WdpMessage.cs:53-62 | a number that fits reads back from its corrected form |
| Wdp.PortValue | SharpSMS/Wap/WdpMessage.cs:34-35 | a port is `[(n >> 8) & 0xFF, n & 0xFF]`, which reads back as n mod 65536, so larger ports are silently truncated |
| Wdp.ToBigEndian | SharpSMS/Wap/WdpMessage.cs:53-62 | the corrected descending loop stores the big-endian form |
| Wdp.WdpHeaderLayout | SharpSMS/Wap/WdpMessage.cs:28-46 | the header is always six octets: 05, the length 4, the destination port and the source port mod 65536 |
| Wdp.GetWdpHeader | SharpSMS/Wap/WdpMessage.cs:28-46 | writes the header of the two ports |
| WdpBinaryMessage.NewBinaryMessage | SharpSMS/Wap/WdpBinaryMessage.cs:27-34 | ports 0x0B84 and 0x23F0, 8-bit data, the given data |
| WdpBinaryMessage.DefaultBinaryMessage | SharpSMS/Wap/WdpBinaryMessage.cs:18-21 | the same with null data |
| WdpBinaryMessage.SmsBytes | SharpSMS/Wap/WdpBinaryMessage.cs:42-45 | the body is the data, null included |
| WdpBinaryMessage.UdhBytes | SharpSMS/Wap/WdpBinaryMessage.cs:50-53 | the six-octet application-port element of the two ports |
| WdpBinaryMessage.UdhDependsOnPorts | SharpSMS/Wap/WdpBinaryMessage.cs:50-53 | messages with the same ports have the same header, and equal headers mean equal ports mod 65536 |
| TextMessage.NewTextMessage | SharpSMS/TextMessage.cs:15-19 | the default alphabet and the empty text |
| TextMessage.DataBytes | SharpSMS/TextMessage.cs:49-67 | null text fails; 7-bit and 8-bit give one octet per character, and empty text an empty body |
| TextMessage.DataBytesRoundTrip | SharpSMS/TextMessage.cs:53-64 | in 7-bit and 8-bit every octet is its character within the alphabet; in UCS2 each BMP character is two octets, high first |
| TextMessage.DataBytesLength | SharpSMS/TextMessage.cs:53-64 | one octet per character, or two per UTF-16 unit in UCS2 |
| TextMessage.Utf16BEOfBmp | SharpSMS/TextMessage.cs:62 | a character below 0x10000 is its code unit, high octet first |
| TextMessage.SmsBytes | SharpSMS/TextMessage.cs:27-31 | the body is exactly the encoded text, with no header |
| TextMessage.UdhBytes | SharpSMS/TextMessage.cs:37-40 | plain text has no user data header |
| WapPushMessage.DefaultPush | SharpSMS/Wap/WapPushMessage.cs:20-29 | push ports, 8-bit data, no push flag, no security, the connectivity content type, everything else null |
| WapPushMessage.DocumentPush | SharpSMS/Wap/WapPushMessage.cs:35-40 | the defaults with the document's bytes and content type; fails exactly when the document cannot be written |
| WapPushMessage.DataPush | SharpSMS/Wap/WapPushMessage.cs:46-49 | no chaining to the default constructor: ports 0, the 7-bit alphabet, null content type |
| WapPushMessage.StringPush | SharpSMS/Wap/WapPushMessage.cs:55-59 | the UTF-8 octets of the message with 8-bit data; a null message fails |
| WapPushMessage.Padded | SharpSMS/Wap/WapPushMessage.cs:191-199 | the padded IMSI has even length, at least two, and half of that length is the trimmed length / 2 + 1 |
| WapPushMessage.HexPairWhite | SharpSMS/Wap/WapPushMessage.cs:211-213 | without white space or a trailing NUL, a pair is read as one hex number; a digit followed by NUL is that digit |
| WapPushMessage.ParseHexPair | SharpSMS/Wap/WapPushMessage.cs:213 | `byte.TryParse` with `HexNumber` on the two characters, skipping white space and trailing NULs, is `HexPairWhite` |
| WapPushMessage.ParsePairNul | SharpSMS/Wap/WapPushMessage.cs:213 | a pair ending in NUL reads as its first character alone, white space or NUL giving nothing |
| WapPushMessage.ParsePairBlank | SharpSMS/Wap/WapPushMessage.cs:213 | a pair not ending in NUL reads as its digits once white space on either side is skipped |
| WapPushMessage.Pairs | SharpSMS/Wap/WapPushMessage.cs:205-219 | one pair per two characters, the later character the high nibble |
| WapPushMessage.KeyOfSucceeds | SharpSMS/Wap/WapPushMessage.cs:213-216 | the key is made exactly when every pair is a hex number |
| WapPushMessage.KeyOfOctets | SharpSMS/Wap/WapPushMessage.cs:205-219 | a key that is made holds one octet per pair, in order |
| WapPushMessage.KeyOfHexDigits | SharpSMS/Wap/WapPushMessage.cs:205-219 | a string of hex digits always gives a key, each octet holding the earlier digit in its low nibble and the later in its high nibble |
| WapPushMessage.ImsiKeyOfDigits | SharpSMS/Wap/WapPushMessage.cs:187-222 | a decimal IMSI gives a key of length trimmed length / 2 + 1 whose semi-octets are the padded digits |
| WapPushMessage.ImsiToKey | SharpSMS/Wap/WapPushMessage.cs:187-222 | a null IMSI fails; otherwise the key of the trimmed, padded IMSI, failing on a pair `byte.TryParse` rejects |
| WapPushMessage.TryParseHex | SharpSMS/Wap/WapPushMessage.cs:213 | reads a pair as `HexPairWhite`, "F" and NUL giving 0x0F |
| WapPushMessage.FillKey | SharpSMS/Wap/WapPushMessage.cs:201-221 | the loop that advances two characters per octet fills the key octet by octet, failing at the first pair `byte.TryParse` rejects |
| WapPushMessage.ImsiKeyTrailingNul | SharpSMS/Wap/WapPushMessage.cs:187-222 | the network PIN "12345" and NUL gives the key 11 32 54 0F |
| WapPushMessage.ImsiKeyAboveBmpFails | SharpSMS/Wap/WapPushMessage.cs:187-222 | a trimmed IMSI holding a character above U+FFFF has no key, as its surrogate units fail to parse in the code |
| WapPushMessage.SecurityKeyLayout | SharpSMS/Wap/WapPushMessage.cs:94-118 | `None` gives 00; NETWPIN the network key; USERPIN the ASCII PIN; USERNETWPIN the network key followed by the user PIN; USERPINMAC fails; a missing PIN fails |
| WapPushMessage.CombinedKeyLayout | SharpSMS/Wap/WapPushMessage.cs:107-111 | the combined key fails exactly when the network key does; otherwise the network key comes first and the user PIN's ASCII characters follow it |
| WapPushMessage.AsciiBehind | SharpSMS/Wap/WapPushMessage.cs:109-111 | a PIN copied behind a key leaves the key in front and the PIN's ASCII characters behind |
| WapPushMessage.GetSecurityKey | SharpSMS/Wap/WapPushMessage.cs:94-118 | the switch computes `SecurityKey` |
| WapPushMessage.SecurityBlockLayout | SharpSMS/Wap/WapPushMessage.cs:135-148 | without security the block is the content-type header; under a method it is followed by the security header with the MAC of the data under the security key; a null content type, a failing key, null data or an empty MAC fails |
| WapPushMessage.PushFlagPart | SharpSMS/Wap/WapPushMessage.cs:158-159 | present exactly when the flag is not zero, opening with B4 |
| WapPushMessage.InitiatorPart | SharpSMS/Wap/WapPushMessage.cs:162-163 | present exactly when the URI is neither null nor empty, opening with B1 |
| WapPushMessage.ContentUriPart | SharpSMS/Wap/WapPushMessage.cs:166-167 | present exactly when the URI is neither null nor empty, opening with B0 |
| WapPushMessage.AppIdPart | SharpSMS/Wap/WapPushMessage.cs:170-171 | present exactly when the application type is neither null nor empty, opening with AF |
| WapPushMessage.OptionalHeadersEmpty | SharpSMS/Wap/WapPushMessage.cs:157-171 | there are no optional headers exactly when no flag, URI or application type is set |
| WapPushMessage.FrameLayout | SharpSMS/Wap/WapPushMessage.cs:127-178 | the header opens 01 06, then the header length mod 256 (wrong from 256 octets on), then a value-length that reads back as the block length, the block and the optional headers |
| WapPushMessage.GetSecurityStream | SharpSMS/Wap/WapPushMessage.cs:135-148 | writes the content type and, under a security method, the security header |
| WapPushMessage.WriteOptionalHeaders | SharpSMS/Wap/WapPushMessage.cs:157-171 | writes the optional headers, each under its own condition, in the order push flag, initiator, content URI, application ID |
| WapPushMessage.GetWapWspHeaderBytes | SharpSMS/Wap/WapPushMessage.cs:125-179 | the three nested streams give the frame of the security block and the optional headers |
| WapPushMessage.SmsBytes | SharpSMS/Wap/WapPushMessage.cs:69-77 | the body is the WSP header followed by the data; it fails exactly when the header fails or the data is null |
| WapPushMessage.GetSmsBytes | SharpSMS/Wap/WapPushMessage.cs:69-77 | writes the header and the data |
| WapPushMessage.UdhBytes | SharpSMS/Wap/WapPushMessage.cs:85-88 | the six-octet application-port element of the two ports |
| WbxmlDocument.SetTagTokenIndications | SharpSMS/Wbxml/WBXMLDocument.cs:71-79 | the low six bits are kept; bit 7 is set exactly with attributes or if it was set; bit 6 likewise with content |
| WbxmlDocument.SetTagTokenIndicationsIdempotent | SharpSMS/Wbxml/WBXMLDocument.cs:71-79 | setting the flags twice is setting them once |
| WbxmlDocument.InlineString | SharpSMS/Wbxml/WBXMLDocument.cs:86-94 | STR_I, the UTF-8 octets, NUL |
| WbxmlDocument.InlineStringRoundTrip | SharpSMS/Wbxml/WBXMLDocument.cs:86-94 | a NUL-free text reads back from its inline string, whatever follows |
| WbxmlDocument.WriteInlineString | SharpSMS/Wbxml/WBXMLDocument.cs:86-94 | appends the inline string |
| WbxmlDocument.HexOfDecimalDigits | SharpSMS/Wbxml/WBXMLDocument.cs:105-126 | the decimal string read as hex is packed BCD spelling the value |
| WbxmlDocument.DateFields | SharpSMS/Wbxml/WBXMLDocument.cs:105-126 | seven fields in the order century, year, month, day, hour, minute, second, each below 100 |
| WbxmlDocument.OpaqueDateLayout | SharpSMS/Wbxml/WBXMLDocument.cs:110-133 | OPAQUE C3, a length L from 4 to 7, then L octets; L is 7 exactly with seconds, at least 6 with minutes or seconds, at least 5 with any time |
| WbxmlDocument.OpaqueDateOctets | SharpSMS/Wbxml/WBXMLDocument.cs:103-133 | the octets after the length are the first L of the seven BCD fields |
| WbxmlDocument.OpaqueDateRoundTrip | SharpSMS/Wbxml/WBXMLDocument.cs:101-134 | the date reads back from its octets; the fields left out are zero |
| WbxmlDocument.WriteDate | SharpSMS/Wbxml/WBXMLDocument.cs:101-134 | filling the seven-octet buffer and bumping the length appends the opaque date |
| HrefTokens.DomainTokensDistinct | SharpSMS/Wbxml/ServiceIndication.cs:99-103 | the domain tokens 0x85-0x88 are distinct |
| HrefTokens.FirstPrefix | SharpSMS/Wbxml/ServiceIndication.cs:156-164 | the first table prefix the href starts with, or None when it starts with none |
| HrefTokens.HrefStart | SharpSMS/Wbxml/ServiceIndication.cs:154-164 | the number of characters the start token stands for lies within the href |
| HrefTokens.FindHrefStart | SharpSMS/Wbxml/ServiceIndication.cs:154-164 | the `foreach`/`break` loop gives the first matching prefix's token and length, or the generic token and 0 |
| HrefTokens.FirstDomain | SharpSMS/Wbxml/ServiceIndication.cs:167-177 | the first domain ending in table order that occurs anywhere, with its first occurrence, not the leftmost ending |
| HrefTokens.FindDomain | SharpSMS/Wbxml/ServiceIndication.cs:167-177 | the loop gives `FirstDomain`, or -1 when no ending occurs |
| HrefTokens.HrefFails | SharpSMS/Wbxml/ServiceIndication.cs:181-187 | the href form fails exactly when the domain found starts before the end of the stripped prefix, with `Substring`'s exception |
| HrefTokens.HrefReassembles | SharpSMS/Wbxml/ServiceIndication.cs:180-192 | the prefix and the text after it reassemble the href, and so do the pieces around the domain ending |
| HrefTokens.TokenTextAt | SharpSMS/Wbxml/ServiceIndication.cs:93-103 | with distinct tokens, an entry's token leads back to its text |
| HrefTokens.HrefRoundTrip | SharpSMS/Wbxml/ServiceIndication.cs:151-192 | every NUL-free href whose form can be written reads back from it, with a decodable prefix table |
| HrefTokens.HrefFormRoundTrip | SharpSMS/Wbxml/ServiceIndication.cs:180-192 | the form written from any prefix split and domain occurrence reads back as the href |
| HrefTokens.WriteHref | SharpSMS/Wbxml/ServiceIndication.cs:151-192 | the two searches and the writes append the href form or fail with it |
| HrefTokens.WriteHrefPieces | SharpSMS/Wbxml/ServiceIndication.cs:180-192 | the writes after the searches append the href form for their outcome |
| ServiceIndication.NewIndication | SharpSMS/Wbxml/ServiceIndication.cs:112-117 | the given text, href and action; no dates, no id |
| ServiceIndication.DefaultIndication | SharpSMS/Wbxml/ServiceIndication.cs:87-104 | nothing set |
| ServiceIndication.TextIndication | SharpSMS/Wbxml/ServiceIndication.cs:124-127 | the given text and href, no action |
| ServiceIndication.ActionToken | SharpSMS/Wbxml/ServiceIndication.cs:244-268 | tokens 0x05-0x09, 0x05 exactly for signal-none and the unset default |
| ServiceIndication.ActionTokensDistinct | SharpSMS/Wbxml/ServiceIndication.cs:244-268 | set actions have distinct tokens, and the signal tokens rise with the level |
| ServiceIndication.Head | SharpSMS/Wbxml/ServiceIndication.cs:142-149 | 02 05 6A 00 45 C6: version 1.2, the SI identifier, UTF-8, no string table, `<si>` with content, `<indication>` with content and attributes |
| ServiceIndication.ActionPart | SharpSMS/Wbxml/ServiceIndication.cs:195-196 | present exactly when the action is set |
| ServiceIndication.DatePart | SharpSMS/Wbxml/ServiceIndication.cs:199-210 | present exactly when the date is not `MinValue`: the token and the opaque date |
| ServiceIndication.IdPart | SharpSMS/Wbxml/ServiceIndication.cs:213-217 | present exactly when the id is not null: 0x11 and the inline string |
| ServiceIndication.Tail | SharpSMS/Wbxml/ServiceIndication.cs:220-227 | END, the text, END END |
| ServiceIndication.WbxmlFails | SharpSMS/Wbxml/ServiceIndication.cs:137-233 | writing fails exactly for a null href, a failing href form or a null text, each with its exception |
| ServiceIndication.WbxmlLayout | SharpSMS/Wbxml/ServiceIndication.cs:137-233 | a written document opens with the head and ends with the tail |
| ServiceIndication.ConstructedAttributes | SharpSMS/Wbxml/ServiceIndication.cs:112-127 | a document made by a constructor carries at most the action attribute |
| ServiceIndication.DefaultFails | SharpSMS/Wbxml/ServiceIndication.cs:87-104 | the parameterless constructor gives a document that cannot be written |
| ServiceIndication.StartTokensDecodable | SharpSMS/Wbxml/ServiceIndication.cs:93-97 | the SI prefix tokens are distinct and differ from the generic href token |
| ServiceIndication.HrefReadsBack | SharpSMS/Wbxml/ServiceIndication.cs:151-192 | the href of every written SI reads back from its tokens |
| ServiceIndication.GetWbxmlBytes | SharpSMS/Wbxml/ServiceIndication.cs:137-233 | writes `WbxmlBytes` (see WbxmlFails, WbxmlLayout) |
| ServiceIndication.WriteAttributes | SharpSMS/Wbxml/ServiceIndication.cs:194-217 | writes action, created, expires, id in that order, each only when set |
| ServiceLoading.NewLoading | SharpSMS/Wbxml/ServiceLoading.cs:84-88 | the given href and action |
| ServiceLoading.DefaultLoading | SharpSMS/Wbxml/ServiceLoading.cs:60-77 | a null href and no action |
| ServiceLoading.HrefLoading | SharpSMS/Wbxml/ServiceLoading.cs:94-97 | the given href and no action |
| ServiceLoading.ActionToken | SharpSMS/Wbxml/ServiceLoading.cs:183-201 | tokens 0x05-0x07, the cache token exactly for Cache and the unset default |
| ServiceLoading.ActionTokenRoundTrip | SharpSMS/Wbxml/ServiceLoading.cs:183-201 | every set action reads back from its token, and only 0x05-0x07 are action tokens |
| ServiceLoading.Head | SharpSMS/Wbxml/ServiceLoading.cs:111-117 | 02 06 6A 00 85: version 1.2, the SL identifier, UTF-8, no string table, `<sl>` with attributes and no content |
| ServiceLoading.ActionPart | SharpSMS/Wbxml/ServiceLoading.cs:162-164 | present exactly when the action is set |
| ServiceLoading.Framed | SharpSMS/Wbxml/ServiceLoading.cs:106-173 | the head, the href form, the action and a single END frame the document |
| ServiceLoading.WbxmlRoundTrip | SharpSMS/Wbxml/ServiceLoading.cs:106-173 | every written document with a NUL-free href reads back to the href and the action |
| ServiceLoading.WbxmlFails | SharpSMS/Wbxml/ServiceLoading.cs:106-173 | writing fails exactly for a null href or a failing href form |
| ServiceLoading.DefaultFails | SharpSMS/Wbxml/ServiceLoading.cs:60-77 | the parameterless constructor gives a document that cannot be written |
| ServiceLoading.StartTokensDecodable | SharpSMS/Wbxml/ServiceLoading.cs:66-70 | the SL prefix tokens are distinct and differ from the generic href token 0x08 |
| ServiceLoading.HrefReadsBack | SharpSMS/Wbxml/ServiceLoading.cs:119-160 | the href of every written SL reads back from its tokens |
| ServiceLoading.GetWbxmlBytes | SharpSMS/Wbxml/ServiceLoading.cs:106-173 | writes `WbxmlBytes` (see WbxmlRoundTrip, WbxmlFails) |

## Left out

- HMAC-SHA1 (`ComputeMac`, SharpSMS/Wap/WapPushMessage.cs:181-185) is not modelled: it is the parameter `mac` of every member that needs it.
- The .NET encoders (`Encoding.UTF8`, `ASCII`, `iso-8859-1`, `BigEndianUnicode`) are modelled on Unicode scalar values. A string holding unpaired surrogates, which .NET allows, has no counterpart.
- Text.ToLower: only A-Z are lower-cased. .NET `String.ToLower()` uses the current culture's case mapping. It also maps some non-ASCII capitals onto ASCII letters: KELVIN SIGN U+212A becomes 'k', so the code finds "application/p" U+212A "cs7-mime" as token 0x37 while the model writes it as a literal. Under a Turkish culture it maps 'I' to the dotless U+0131 instead, so the code misses table entries that the model finds. WspHeaders.ContentTypeHeaderKnown, WspHeaders.ContentTypeHeaderUnknown, WspHeaders.AppIdHeaderKnown and WspHeaders.AppIdHeaderUnknown inherit this.
- Wsp.WriteUintvar, Wsp.WriteLongInteger, Wsp.WriteInteger and Wsp.WriteValueLength: they take a `nat`, where the public C# methods take a `long`. A negative argument is not modelled; every caller in the library passes a non-negative value.
- `Trim` and `byte.TryParse(…, HexNumber)` are modelled for the white space they skip and the trailing NULs the parser accepts, on strings of at most two characters, which is all `ImsitoKey` passes.
- `Math.Ceiling` on `double` and `Math.Pow` are modelled as exact integer ceiling division and powers of two. The operands are small enough for the doubles to be exact.
- `TimeSpan` and `DateTime` are records of the integer components that the encoders read. `TimeSpan.MinValue` is `None`, and `DateTime.MinValue` is the constant `MinValue`.
- `Dictionary` enumeration order is modelled as insertion order: the href tables are ordered sequences. The .NET runtime keeps that order for tables that are never edited, but does not promise it.
- HrefTokens.FirstPrefix, HrefTokens.FirstDomain and SmsHeader.AddressFieldLayout: they compare ordinally. The code calls the culture-sensitive `String.StartsWith(string)` and `String.IndexOf(string)` (SharpSMS/Wbxml/ServiceIndication.cs:158 and 171, SharpSMS/Wbxml/ServiceLoading.cs:126 and 139, SharpSMS/SMSSubmit.cs:386). The two agree on text without ignorable code points; on an href such as `http:\u00AD//www.x.com/`, with a soft hyphen, the culture-sensitive test matches `http://` and the ordinal one does not.
- Port numbers are `nat`. A negative C# `int` port is not modelled.
- Null strings and arrays are `None` where the code dereferences them. The null phone number is the empty string, because `IsNullOrEmpty` treats the two alike.
- SharpSMS/ISmsMessageContent.cs is a closed datatype of its three implementations. Other implementations are not modelled.
- SmsSubmit.PduListSplits: it requires at most 255 parts. Past that, the `(byte)` casts of the part count and the sequence number wrap, which the model writes out but no lemma describes.
- Wsp.WriteLongInteger: it requires a value below 2^56. From 2^56 on, the C# counting loop never ends, because a `long` shift count is taken mod 64.
- SmsSubmit.PduListSucceeds: it requires at most 255 parts, for the same reason as PduListSplits.
- Septets.PowSum: it requires n <= 30. From 31 on, `(int)Math.Pow(2, i)` overflows `int`, and the only caller asks for at most 6.
- Wsp.LongIntegerRoundTrip, Wsp.IntegerRoundTrip and Wsp.WriteInteger: they require a value below 2^56, for the same reason as WriteLongInteger.
- Wdp.ToBigEndian: it requires at most 8 octets, the width of the C# `long`. The header only asks for 2.
- SmsSubmit.GetPduList: it uses the corrected part count (see Findings). The count as written appears only in the members that exhibit its failures. The corrected count sizes every part by a full slice, so it can give one part more than the code where the code succeeds: an 8-bit body of 2377 octets without a content header is 18 parts as written and 19 corrected (`PartCountAsWrittenFitsWithFewer`), because the last slice of an 8-bit body has room for one octet more.
- ProtocolIdentifier.ProtocolIdentifierBuilder.SetScSpecific: it writes the corrected group bits 0xC0 (see Findings). The as-written value is `PidScSpecificAsWritten`.
- Wdp.ToBigEndian: the header uses the corrected big-endian form. For the two-octet ports it agrees with the code as written (`BigEndianAsWrittenAgreesAtTwo`).
- SmsSubmit.PduHeader: the TP-VP octet uses the corrected validity bands `RelativeValidity` (see Findings).
- Samples/Modem.cs, Samples/Program.cs and Samples/SampleMessage.cs are not part of this model: they cover serial-port I/O, the console menu and example objects.

## Findings

| source | as written | input that shows it | evidently intended | confidence | as-written member | corrected member |
|---|---|---|---|---|---|---|
| SharpSMS/SMSSubmit.cs:149-182 | past one part, the count adds eight octets of concatenation header per part but divides by the single-part room | a 239-octet WAP push with its 6-octet port header: 3 parts are counted, each non-final part takes 126 octets, and the second slice already runs past the body, so `Array.Copy` throws; a 3193-character 7-bit text: 21 parts, and the last takes 153 septets, announcing 161 > 160 | as many parts as strides of `budget - 8 - |udh|` octets: 2 and 22 | high (not executed) | SmsSubmit.PartCountAsWrittenOverruns, SmsSubmit.PartsFromAsWrittenFails, SmsSubmit.PartsAsWrittenOverfill | SmsSubmit.PartCountFits, SmsSubmit.PduListSplits |
| SharpSMS/SMSSubmit.cs:359-371 | the band edges of the relative validity period | 3 minutes gives `(byte)(-1)` = 255, i.e. 63 weeks; 12 h 30 min gives 149, i.e. 15 hours; exactly 1 day gives 0, i.e. 5 minutes | the TS 23.040 section 9.2.3.12.1 band that does not exceed the request: 0, 144, 167 | high (not executed) | SmsHeader.ValidityAsWrittenCounterexamples | SmsHeader.ValidityWithinFactorTwo |
| SharpSMS/ProtocoldentifierBuilder.cs:24 | `TP_PID_SC_SPECIFIC = 0x0C` | `SetSCSpecific(0)` gives 0x0C, which TS 23.040 section 9.2.3.9 reads as SME-to-SME protocol 0x0C | 0xC0, the SC-specific group (bits 7 and 6 set) | high (not executed) | ProtocolIdentifier.ScSpecificAsWrittenMisread | ProtocolIdentifier.PidScSpecificDecodes |
| SharpSMS/Wap/WdpMessage.cs:57-59 | index i receives `number >> 8(i + 1)` | `ToBigEndian(0x010203, 3)` gives 02 01 03 | index i receives `number >> 8(byteLen - 1 - i)`, i.e. 01 02 03 | medium (not executed; only two octets are ever requested, where both agree) | Wdp.BigEndianAsWrittenMisorders | Wdp.BigEndianValue |
