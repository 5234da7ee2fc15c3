/**
 * The push header writers of SharpSMS.Wap.Wsp. Well-known field names are
 * short-integers, the field code with bit 7 set; each writer appends the
 * field name and its value to a stream. A writer that reaches
 * `WriteTextString` with an empty text fails there, which the model returns
 * as an error.
 */
module WspHeaders {
  import opened Wrappers
  import opened Arith
  import opened Radix
  import opened Text
  import opened WspTables
  import opened Wsp

  const SecNetwPin: byte := 0x00
  const SecUserPin: byte := 0x01
  const SecUserNetwPin: byte := 0x02
  const SecUserPinMac: byte := 0x03

  // ---------------------------------------------------------------------
  // Content-Type

  /** `Wsp.WriteHeaderContentType`: a content type the table knows is its token as one
      short-integer; any other is a value-length counting `contentType.Length + 1` followed by the
      extension media. The value has no field name: it opens the header block. */
  function ContentTypeHeader(contentType: string): seq<byte>
  {
    ContentTypeValue(GetContentType(ToLower(contentType)), contentType)
  }

  /** The content-type value for a lookup result: the token, or the literal when the lookup missed. */
  function ContentTypeValue(token: int, contentType: string): seq<byte>
    requires -1 <= token < ContentTypeCount
  {
    if token == -1 then ValueLength(Utf16Length(contentType) + 1) + ExtensionMedia(contentType)
    else [ShortInteger(token)]
  }

  /** A content type the table knows becomes the single octet token + 0x80; one it lacks is the
      literal written by `ContentTypeValue(-1, contentType)`. */
  lemma ContentTypeHeaderKnown(contentType: string)
    requires GetContentType(ToLower(contentType)) != -1
    ensures |ContentTypeHeader(contentType)| == 1
    ensures ContentTypeHeader(contentType)[0] == GetContentType(ToLower(contentType)) + 0x80
  {}

  lemma ContentTypeHeaderUnknown(contentType: string)
    requires GetContentType(ToLower(contentType)) == -1
    ensures ContentTypeHeader(contentType) == ContentTypeValue(-1, contentType)
  {}

  /** A content type the table lacks is written as `ContentTypeValue(-1, contentType)`. For an
      ASCII one that is the value-length, the text and a NUL, and the value-length counts exactly
      the octets after it (which `Wsp.ValueLengthRoundTrip` reads back). */
  lemma ContentTypeLiteralFraming(contentType: string)
    requires IsAscii(contentType)
    ensures ContentTypeValue(-1, contentType) == ValueLength(|contentType| + 1) + Ascii(contentType) + [0]
    ensures |ContentTypeValue(-1, contentType)| == |ValueLength(|contentType| + 1)| + |contentType| + 1
  {
    Utf8OfAscii(contentType);
    var n := Utf16Length(contentType) + 1;
    assert n == |contentType| + 1;
    var media := ExtensionMedia(contentType);
    assert ContentTypeValue(-1, contentType) == ValueLength(n) + media;
    assert media == Ascii(contentType) + [0];
    AppendAssoc(ValueLength(n), Ascii(contentType), [0]);
  }

  /** The value-length counts UTF-16 units, not UTF-8 octets: for a content type the table lacks
      that holds a non-ASCII character, the value-length (`ContentTypeValue(-1, contentType)`)
      announces fewer octets than the extension media that follows it. */
  lemma ContentTypeLiteralMiscounts(contentType: string)
    requires !IsAscii(contentType)
    ensures Utf16Length(contentType) + 1 < |ExtensionMedia(contentType)|
  {
    Utf16ShorterThanUtf8(contentType);
  }

  method WriteHeaderContentType(stream: seq<byte>, contentType: string) returns (r: seq<byte>)
    ensures r == stream + ContentTypeHeader(contentType)
  {
    var wellKnownContentType := GetContentType(ToLower(contentType));
    r := WriteContentTypeValue(stream, wellKnownContentType, contentType);
  }

  /** The part of `WriteHeaderContentType` after the lookup. */
  method WriteContentTypeValue(stream: seq<byte>, wellKnownContentType: int, contentType: string) returns (r: seq<byte>)
    requires -1 <= wellKnownContentType < ContentTypeCount
    ensures r == stream + ContentTypeValue(wellKnownContentType, contentType)
  {
    if wellKnownContentType == -1 {
      var n := Utf16Length(contentType) + 1;
      r := WriteValueLength(stream, n);
      r := WriteExtensionMedia(r, contentType);
      AppendAssoc(stream, ValueLength(n), ExtensionMedia(contentType));
    } else {
      r := WriteShortInteger(stream, wellKnownContentType);
    }
  }

  // ---------------------------------------------------------------------
  // X-WAP-Application-ID

  /** `Wsp.WriteHeaderXWAPApplicationID`: the field name, then the registered code as an integer,
      or the name as a text-string when the table lacks it. */
  function AppIdHeader(applicationType: string): Result<seq<byte>>
  {
    AppIdValue(GetApplicationType(ToLower(applicationType)), applicationType)
  }

  /** The application-ID header for a lookup result. */
  function AppIdValue(code: int, applicationType: string): Result<seq<byte>>
    requires code == -1 || 0 <= code <= 0x0A || 0x8000 <= code <= 0x8010
  {
    if code != -1 then Ok([ShortInteger(HeaderApplicationId)] + Integer(code))
    else if applicationType == [] then Err(EmptyText)
    else Ok([ShortInteger(HeaderApplicationId)] + TextString(applicationType))
  }

  /** A value of two significant octets is the long-integer [0x02, high, low]. */
  lemma LongIntegerTwoOctets(v: nat)
    requires 0x100 <= v < 0x10000
    ensures LongInteger(v) == [0x02, v / 256, v % 256]
  {
    assert Digits(v / 256, 256) == [v / 256];
    assert Digits(v, 256) == [v / 256, v % 256];
  }

  /** A registered application is sent as 0xAF and its code: a short-integer below 0x80, the
      two-octet long-integer [0x02, high, low] for the 0x80xx range; the code reads back. */
  lemma AppIdHeaderKnown(applicationType: string, rest: seq<byte>)
    requires GetApplicationType(ToLower(applicationType)) != -1
    ensures var code := GetApplicationType(ToLower(applicationType));
            var h := AppIdHeader(applicationType);
            h.Ok? && h.value[0] == 0xAF &&
            (code < 0x80 ==> h.value == [0xAF, code + 0x80]) &&
            (code >= 0x80 ==> h.value == [0xAF, 0x02, code / 256, code % 256]) &&
            ParseInteger(h.value[1..] + rest) == Some((code, |h.value| - 1))
  {
    var code := GetApplicationType(ToLower(applicationType));
    var h := [ShortInteger(HeaderApplicationId)] + Integer(code);
    assert AppIdHeader(applicationType) == AppIdValue(code, applicationType) == Ok(h);
    if code >= 0x80 {
      LongIntegerTwoOctets(code);
    }
    IntegerRoundTrip(code, rest);
    assert h[1..] == Integer(code);
  }

  /** An unregistered application (`AppIdHeaderUnknown`) is sent by name, which reads back as its
      UTF-8 octets; the empty name fails. */
  lemma AppIdNamed(applicationType: string, rest: seq<byte>)
    requires NoNul(applicationType) && (applicationType != [] ==> applicationType[0] != 0x7F as char)
    ensures AppIdValue(-1, applicationType).Err? <==> applicationType == []
    ensures AppIdValue(-1, applicationType).Ok? ==>
              AppIdValue(-1, applicationType).value[0] == 0xAF &&
              ParseTextString(AppIdValue(-1, applicationType).value[1..] + rest)
              == Some((Utf8(applicationType), |AppIdValue(-1, applicationType).value| - 1))
  {
    if applicationType != [] {
      var h := [ShortInteger(HeaderApplicationId)] + TextString(applicationType);
      assert AppIdValue(-1, applicationType) == Ok(h);
      assert h[1..] == TextString(applicationType);
      TextStringRoundTrip(applicationType, rest);
    }
  }

  lemma AppIdHeaderUnknown(applicationType: string)
    requires GetApplicationType(ToLower(applicationType)) == -1
    ensures AppIdHeader(applicationType) == AppIdValue(-1, applicationType)
  {}

  method WriteHeaderXWAPApplicationID(stream: seq<byte>, applicationType: string) returns (r: Result<seq<byte>>)
    ensures r == Appended(stream, AppIdHeader(applicationType))
  {
    var wellKnownAppId := GetApplicationType(ToLower(applicationType));
    r := WriteAppIdValue(stream, wellKnownAppId, applicationType);
  }

  /** The part of `WriteHeaderXWAPApplicationID` after the lookup. */
  method WriteAppIdValue(stream: seq<byte>, wellKnownAppId: int, applicationType: string) returns (r: Result<seq<byte>>)
    requires wellKnownAppId == -1 || 0 <= wellKnownAppId <= 0x0A || 0x8000 <= wellKnownAppId <= 0x8010
    ensures r == Appended(stream, AppIdValue(wellKnownAppId, applicationType))
  {
    var out := WriteShortInteger(stream, HeaderApplicationId);
    if wellKnownAppId == -1 {
      r := WriteTextString(out, applicationType);
      if applicationType != [] {
        AppendAssoc(stream, [ShortInteger(HeaderApplicationId)], TextString(applicationType));
      }
    } else {
      out := WriteInteger(out, wellKnownAppId);
      r := Ok(out);
      AppendAssoc(stream, [ShortInteger(HeaderApplicationId)], Integer(wellKnownAppId));
    }
  }

  // ---------------------------------------------------------------------
  // X-WAP-Initiator-URI and X-WAP-Content-URI

  /** A field name followed by a text-string value. */
  function TextHeader(field: byte, text: string): (r: Result<seq<byte>>)
  {
    if text == [] then Err(EmptyText) else Ok([ShortInteger(field)] + TextString(text))
  }

  /** The field name and the text read back, and the empty text fails. */
  lemma TextHeaderRoundTrip(field: byte, text: string, rest: seq<byte>)
    requires NoNul(text) && (text != [] ==> text[0] != 0x7F as char)
    ensures TextHeader(field, text).Err? <==> text == []
    ensures TextHeader(field, text).Ok? ==>
              TextHeader(field, text).value[0] == ShortInteger(field) &&
              ParseTextString(TextHeader(field, text).value[1..] + rest)
              == Some((Utf8(text), |TextHeader(field, text).value| - 1))
  {
    if text != [] {
      assert TextHeader(field, text).value[1..] == TextString(text);
      TextStringRoundTrip(text, rest);
    }
  }

  method WriteHeaderXWAPInitiatorURI(stream: seq<byte>, initiatorUri: string) returns (r: Result<seq<byte>>)
    ensures r == Appended(stream, TextHeader(HeaderInitiatorUri, initiatorUri))
    ensures r.Ok? ==> r.value[|stream|] == 0xB1
  {
    var out := WriteShortInteger(stream, HeaderInitiatorUri);
    r := WriteTextString(out, initiatorUri);
    if initiatorUri != [] {
      AppendAssoc(stream, [ShortInteger(HeaderInitiatorUri)], TextString(initiatorUri));
    }
  }

  method WriteHeaderXWAPContentURI(stream: seq<byte>, contentUri: string) returns (r: Result<seq<byte>>)
    ensures r == Appended(stream, TextHeader(HeaderContentUri, contentUri))
    ensures r.Ok? ==> r.value[|stream|] == 0xB0
  {
    var out := WriteShortInteger(stream, HeaderContentUri);
    r := WriteTextString(out, contentUri);
    if contentUri != [] {
      AppendAssoc(stream, [ShortInteger(HeaderContentUri)], TextString(contentUri));
    }
  }

  // ---------------------------------------------------------------------
  // Push-Flag

  /** `Wsp.WriteHeaderPushFlag`: 0xB4 and the flag as a short-integer. */
  function PushFlagHeader(pushFlag: byte): seq<byte>
  {
    [ShortInteger(HeaderPushFlag), ShortInteger(pushFlag)]
  }

  /** The header is 0xB4 and the flag with bit 7 set; a flag below 0x80 reads back as an integer. */
  lemma PushFlagHeaderRoundTrip(pushFlag: byte, rest: seq<byte>)
    ensures PushFlagHeader(pushFlag)[0] == 0xB4 && |PushFlagHeader(pushFlag)| == 2
    ensures PushFlagHeader(pushFlag)[1] >= 0x80 && PushFlagHeader(pushFlag)[1] % 128 == pushFlag % 128
    ensures pushFlag < 0x80 ==> ParseInteger(PushFlagHeader(pushFlag)[1..] + rest) == Some((pushFlag as nat, 1))
  {
    assert (PushFlagHeader(pushFlag)[1..] + rest)[0] == ShortInteger(pushFlag);
  }

  method WriteHeaderPushFlag(stream: seq<byte>, pushFlag: byte) returns (r: seq<byte>)
    ensures r == stream + PushFlagHeader(pushFlag)
  {
    r := WriteShortInteger(stream, HeaderPushFlag);
    r := WriteShortInteger(r, pushFlag);
  }

  // ---------------------------------------------------------------------
  // Security (SEC and MAC)

  /** The short-integer naming the security method; `NoSecurity` writes none. */
  function SecurityMethodCode(security: SecurityMethod): (r: seq<byte>)
    ensures |r| <= 1
    ensures r == [] <==> security == NoSecurity
  {
    match security
    case NoSecurity => []
    case NETWPIN => [ShortInteger(SecNetwPin)]
    case USERPIN => [ShortInteger(SecUserPin)]
    case USERNETWPIN => [ShortInteger(SecUserNetwPin)]
    case USERPINMAC => [ShortInteger(SecUserPinMac)]
  }

  /** The field names and method code before the MAC value: 0x91, the method code, 0x92. */
  function SecurityPrefix(security: SecurityMethod): (r: seq<byte>)
    ensures |r| == 2 + |SecurityMethodCode(security)|
  {
    [ShortInteger(HeaderSec)] + SecurityMethodCode(security) + [ShortInteger(HeaderMac)]
  }

  /** `Wsp.WriteHeaderSecurity`: 0x91, the method code, 0x92, and the MAC in upper-case hex as a
      text-string; an empty MAC leaves the text empty and fails. */
  function SecurityHeader(security: SecurityMethod, macKey: seq<byte>): Result<seq<byte>>
  {
    var text := HexString(macKey);
    if text == [] then Err(EmptyText)
    else Ok(SecurityPrefix(security) + TextString(text))
  }

  /** The layout of a security header; the MAC text reads back, and from it the MAC itself. */
  lemma SecurityHeaderShape(security: SecurityMethod, macKey: seq<byte>, rest: seq<byte>)
    requires macKey != []
    ensures var k := 2 + |SecurityMethodCode(security)|;
            var h := SecurityHeader(security, macKey);
            h.Ok? && |h.value| == k + 2 * |macKey| + 1 &&
            h.value[..k] == [0x91] + SecurityMethodCode(security) + [0x92] &&
            ParseTextString(h.value[k..] + rest) == Some((Ascii(HexString(macKey)), |h.value| - k))
  {
    var text := HexString(macKey);
    var k := 2 + |SecurityMethodCode(security)|;
    var p := SecurityPrefix(security);
    TextStringOfAscii(text);
    Utf8OfAscii(text);
    var t := TextString(text);
    assert |t| == 2 * |macKey| + 1;
    var h := p + t;
    assert SecurityHeader(security, macKey) == Ok(h);
    assert h[k..] == t;
    assert h[..k] == p;
    assert p == [0x91] + SecurityMethodCode(security) + [0x92];
    HexStringDigits(macKey);
    assert NoNul(text) && text[0] != 0x7F as char;
    TextStringRoundTrip(text, rest);
  }

  /** The MAC is written as the text that reads back to its bytes. */
  lemma SecurityMacRecovered(macKey: seq<byte>)
    ensures ParseHexString(HexString(macKey)) == Some(macKey)
    ensures Ascii(HexString(macKey)) == Utf8(HexString(macKey))
  {
    HexStringRoundTrip(macKey);
    Utf8OfAscii(HexString(macKey));
  }

  lemma SecurityHeaderFails(security: SecurityMethod)
    ensures SecurityHeader(security, []) == Err(EmptyText)
  {}

  method WriteHeaderSecurity(stream: seq<byte>, security: SecurityMethod, macKey: seq<byte>)
    returns (r: Result<seq<byte>>)
    ensures r == Appended(stream, SecurityHeader(security, macKey))
  {
    var out := WriteSecurityFields(stream, security);
    var macKeyString := MacText(macKey);
    r := WriteTextString(out, macKeyString);
    if macKeyString != [] {
      AppendAssoc(stream, SecurityPrefix(security), TextString(macKeyString));
    }
  }

  /** The field names and method code that `WriteHeaderSecurity` writes before the MAC. */
  method WriteSecurityFields(stream: seq<byte>, security: SecurityMethod) returns (out: seq<byte>)
    ensures out == stream + SecurityPrefix(security)
  {
    out := WriteShortInteger(stream, HeaderSec);
    match security {
      case NETWPIN => out := WriteShortInteger(out, SecNetwPin);
      case USERPIN => out := WriteShortInteger(out, SecUserPin);
      case USERNETWPIN => out := WriteShortInteger(out, SecUserNetwPin);
      case USERPINMAC => out := WriteShortInteger(out, SecUserPinMac);
      case NoSecurity =>
    }
    out := WriteShortInteger(out, HeaderMac);
  }

  /** The `foreach` of `WriteHeaderSecurity` that appends `b.ToString("X2")` for every MAC octet. */
  method MacText(macKey: seq<byte>) returns (macKeyString: string)
    ensures macKeyString == HexString(macKey)
  {
    macKeyString := [];
    var i := 0;
    while i < |macKey|
      invariant 0 <= i <= |macKey|
      invariant macKeyString == HexString(macKey[..i])
    {
      HexStringSnoc(macKey[..i], macKey[i]);
      assert macKey[..i + 1] == macKey[..i] + [macKey[i]];
      macKeyString := macKeyString + HexByte(macKey[i]);
      i := i + 1;
    }
    assert macKey[..i] == macKey;
  }

}
