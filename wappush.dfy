/**
 * SharpSMS.Wap.WapPushMessage: a WAP Push, that is a connectionless WSP Push PDU (transaction
 * id, PDU type, header length, the content-type and security headers, the optional X-WAP
 * headers) followed by the data, sent to the push ports in an application-port header.
 * The HMAC-SHA1 of the security header is the parameter `mac` of the members that need it.
 */
module WapPushMessage {
  import opened Wrappers
  import opened Arith
  import opened Text
  import opened SmsEnums
  import opened Wsp
  import opened WspHeaders
  import opened Wdp
  import SI = ServiceIndication
  import SL = ServiceLoading

  /** The content type the parameterless constructor sets. */
  const DefaultContentType: string := "application/vnd.wap.connectivity-wbxml"

  /** The `WBXMLDocument` a push can be built from. */
  datatype Document = Si(si: SI.Indication) | Sl(sl: SL.Loading)
  {
    predicate Valid()
    {
      Si? ==> si.Valid()
    }
  }

  /** `WBXMLDocument.GetWBXMLBytes` of either kind. */
  function DocumentBytes(doc: Document): Result<seq<byte>>
    requires doc.Valid()
  {
    match doc
    case Si(si) => SI.WbxmlBytes(si)
    case Sl(sl) => SL.WbxmlBytes(sl)
  }

  /** `WBXMLDocument.ContentType` as each kind's constructor sets it. */
  function DocumentContentType(doc: Document): string
  {
    match doc
    case Si(_) => SI.ContentType
    case Sl(_) => SL.ContentType
  }

  /** The properties of a push; a null string or array is `None`. */
  datatype PushMessage = PushMessage(
    destinationPort: nat, sourcePort: nat, encoding: DataEncoding,
    contentType: Option<string>, data: Option<seq<byte>>,
    initiatorUri: Option<string>, contentUri: Option<string>, applicationType: Option<string>,
    pushFlag: byte, security: SecurityMethod, userPin: Option<string>, networkPin: Option<string>)

  /** `string.IsNullOrEmpty` negated. */
  predicate Present(s: Option<string>)
  {
    s.Some? && s.value != []
  }

  // ---------------------------------------------------------------------
  // Constructors

  /** `new WapPushMessage()`: the push session ports, 8-bit data, no push flag, no security and
      the connectivity content type; everything else null. */
  function DefaultPush(): (m: PushMessage)
    ensures m.destinationPort == 0x0B84 && m.sourcePort == 0x23F0 && m.encoding == Data8bit
    ensures m.pushFlag == 0 && m.security == NoSecurity && m.contentType == Some(DefaultContentType)
    ensures m.data.None? && m.initiatorUri.None? && m.contentUri.None? && m.applicationType.None?
    ensures m.userPin.None? && m.networkPin.None?
  {
    PushMessage(PushSessionDestination, PushSessionSource, Data8bit, Some(DefaultContentType), None,
                None, None, None, 0, NoSecurity, None, None)
  }

  /** `new WapPushMessage(wbxmlDocument)`: the defaults, then the document's bytes and content
      type; a document that cannot be written makes the constructor throw. */
  function DocumentPush(doc: Document): (r: Result<PushMessage>)
    requires doc.Valid()
    ensures r.Err? <==> DocumentBytes(doc).Err?
    ensures r.Ok? ==> r.value.data == Some(DocumentBytes(doc).value) &&
                      r.value.contentType == Some(DocumentContentType(doc)) &&
                      r.value == DefaultPush().(data := r.value.data, contentType := r.value.contentType)
  {
    var bytes := DocumentBytes(doc);
    if bytes.Err? then Err(bytes.error)
    else Ok(DefaultPush().(data := Some(bytes.value), contentType := Some(DocumentContentType(doc))))
  }

  /** `new WapPushMessage(data)`: does not chain to the parameterless constructor, so the ports
      are 0, the alphabet and security method are the first enumeration members and the content
      type is null. */
  function DataPush(data: Option<seq<byte>>): (m: PushMessage)
    ensures m.destinationPort == 0 && m.sourcePort == 0 && m.encoding == Default7bit
    ensures m.contentType.None? && m.data == data && m.pushFlag == 0 && m.security == NoSecurity
  {
    PushMessage(0, 0, Default7bit, None, data, None, None, None, 0, NoSecurity, None, None)
  }

  /** `new WapPushMessage(message)`: the UTF-8 octets of the message and 8-bit data, with the
      same unset fields as the data constructor; a null message makes the encoder throw. */
  function StringPush(message: Option<string>): (r: Result<PushMessage>)
    ensures r.Err? <==> message.None?
    ensures r.Ok? ==> r.value == DataPush(Some(Utf8(message.value))).(encoding := Data8bit)
  {
    if message.None? then Err(NullValue)
    else Ok(DataPush(Some(Utf8(message.value))).(encoding := Data8bit))
  }

  // ---------------------------------------------------------------------
  // The network PIN key

  /** A trimmed IMSI padded to an even length: "9" in front of an odd one, "1" in front and "F"
      behind an even one. */
  function Padded(t: string): (d: string)
    ensures |d| % 2 == 0 && |d| / 2 == |t| / 2 + 1 && |d| >= 2
  {
    if |t| % 2 == 1 then "9" + t else "1" + t + "F"
  }

  /** The IMSI after `Trim`, padded. */
  function PaddedImsi(imsi: string): (d: string)
    ensures |d| % 2 == 0 && |d| >= 2
  {
    Padded(Trim(imsi))
  }

  /** Two characters read as one hex number under `NumberStyles.HexNumber`: white space on either
      side is skipped and a NUL after the digit is accepted, so a pair holding one digit and one
      blank, or a digit followed by NUL, is that digit. */
  function HexPairWhite(hi: char, lo: char): (r: Option<byte>)
    ensures !IsNumberWhite(hi) && !IsNumberWhite(lo) && !IsNul(lo) ==> r == HexPair(hi, lo)
    ensures IsNul(lo) ==> r == HexPair('0', hi)
  {
    if IsNumberWhite(hi) && IsNumberWhite(lo) then None
    else if IsNumberWhite(hi) then HexPair('0', lo)
    else if IsNumberWhite(lo) || IsNul(lo) then HexPair('0', hi)
    else HexPair(hi, lo)
  }

  /** `byte.TryParse` of a two-character string, as the parser reads it. */
  lemma ParseHexPair(hi: char, lo: char)
    ensures ParseHexByte([hi, lo]) == HexPairWhite(hi, lo)
  {
    if IsNul(lo) {
      ParsePairNul(hi, lo);
    } else {
      ParsePairBlank(hi, lo);
    }
  }

  /** A pair ending in NUL reads as its first character alone. */
  lemma ParsePairNul(hi: char, lo: char)
    requires IsNul(lo)
    ensures ParseHexByte([hi, lo]) == HexPairWhite(hi, lo)
  {
    var z := TrimEnd([hi, lo], IsNul);
    assert z == (if IsNul(hi) then [] else [hi]) by { TrimEndTwo(hi, lo, IsNul); }
    var t := TrimEnd(TrimStart(z, IsNumberWhite), IsNumberWhite);
    assert ParseHexByte([hi, lo]) == HexDigits(t);
    if IsNul(hi) {
      assert t == [];
    } else {
      assert t == (if IsNumberWhite(hi) then [] else [hi]) by {
        TrimStartOne(hi, IsNumberWhite);
        TrimEndOne(hi, IsNumberWhite);
      }
      assert HexDigits([hi]) == HexPair('0', hi) by { HexDigitsShort(hi, hi); }
    }
  }

  /** A pair without a trailing NUL reads as its digits once the white space is skipped. */
  lemma ParsePairBlank(hi: char, lo: char)
    requires !IsNul(lo)
    ensures ParseHexByte([hi, lo]) == HexPairWhite(hi, lo)
  {
    var z := TrimEnd([hi, lo], IsNul);
    assert z == [hi, lo] by { TrimEndTwo(hi, lo, IsNul); }
    var w := TrimStart(z, IsNumberWhite);
    var t := TrimEnd(w, IsNumberWhite);
    assert ParseHexByte([hi, lo]) == HexDigits(t);
    if IsNumberWhite(hi) {
      assert t == (if IsNumberWhite(lo) then [] else [lo]) by {
        TrimStartTwo(hi, lo, IsNumberWhite);
        TrimEndOne(lo, IsNumberWhite);
      }
      assert HexDigits([lo]) == HexPair('0', lo) by { HexDigitsShort(lo, lo); }
    } else {
      assert t == (if IsNumberWhite(lo) then [hi] else [hi, lo]) by {
        TrimStartTwo(hi, lo, IsNumberWhite);
        TrimEndTwo(hi, lo, IsNumberWhite);
      }
      assert HexDigits([hi]) == HexPair('0', hi) && HexDigits([hi, lo]) == HexPair(hi, lo) by {
        HexDigitsShort(hi, lo);
      }
    }
  }

  /** Key octet k of a padded IMSI: characters 2k + 1 and 2k read as one hex number, so the
      later character is the high nibble. */
  function PairByte(d: string, k: nat): Option<byte>
    requires 2 * k + 1 < |d|
  {
    HexPairWhite(d[2 * k + 1], d[2 * k])
  }

  /** The pairs of a padded IMSI read as hex numbers, in order. */
  function Pairs(d: string): (ps: seq<Option<byte>>)
    requires |d| % 2 == 0
    ensures |ps| == |d| / 2 && forall k :: 0 <= k < |ps| ==> ps[k] == PairByte(d, k)
  {
    seq(|d| / 2, k requires 0 <= k < |d| / 2 => PairByte(d, k))
  }

  /** The key octets from pair j on, failing at the first pair that is not a hex number. */
  function KeyOf(ps: seq<Option<byte>>, j: nat): Result<seq<byte>>
    requires j <= |ps|
    decreases |ps| - j
  {
    if j == |ps| then Ok([])
    else
      match ps[j]
      case None => Err(InvalidImsi)
      case Some(b) => Appended([b], KeyOf(ps, j + 1))
  }

  /** `ImsitoKey` as a value. */
  function ImsiKey(imsi: string): Result<seq<byte>>
  {
    KeyOf(Pairs(PaddedImsi(imsi)), 0)
  }

  /** The key is made exactly when every pair from j on is a hex number. */
  lemma {:induction false} KeyOfSucceeds(ps: seq<Option<byte>>, j: nat)
    requires j <= |ps|
    ensures KeyOf(ps, j).Ok? <==> forall k :: j <= k < |ps| ==> ps[k].Some?
    decreases |ps| - j
  {
    if j < |ps| {
      KeyOfSucceeds(ps, j + 1);
    }
  }

  /** A key that is made holds one octet per pair, octet k - j being pair k. */
  lemma {:induction false} KeyOfOctets(ps: seq<Option<byte>>, j: nat)
    requires j <= |ps| && KeyOf(ps, j).Ok?
    ensures |KeyOf(ps, j).value| == |ps| - j
    ensures forall k :: j <= k < |ps| ==> ps[k].Some? && KeyOf(ps, j).value[k - j] == ps[k].value
    decreases |ps| - j
  {
    if j < |ps| {
      KeyOfOctets(ps, j + 1);
    }
  }

  /** Decimal digits pad to hex digits: the digits themselves and the padding characters. */
  lemma PaddedDigits(t: string)
    requires forall i :: 0 <= i < |t| ==> '0' <= t[i] <= '9'
    ensures forall i :: 0 <= i < |Padded(t)| ==> HexDigitValue(Padded(t)[i]).Some? && !IsNumberWhite(Padded(t)[i])
  {
    var d := Padded(t);
    forall i | 0 <= i < |d|
      ensures HexDigitValue(d[i]).Some? && !IsNumberWhite(d[i])
    {
      if 0 < i <= |t| {
        assert d[i] == t[i - 1];
      }
    }
  }

  /** Pairs of hex digits are their values, the later digit the high nibble. */
  lemma PairsOfDigits(d: string)
    requires |d| % 2 == 0
    requires forall i :: 0 <= i < |d| ==> HexDigitValue(d[i]).Some? && !IsNumberWhite(d[i])
    ensures forall k :: 0 <= k < |d| / 2 ==>
              Pairs(d)[k] == Some(HexDigitValue(d[2 * k + 1]).value * 16 + HexDigitValue(d[2 * k]).value)
  {
    var ps := Pairs(d);
    forall k | 0 <= k < |ps|
      ensures ps[k] == Some(HexDigitValue(d[2 * k + 1]).value * 16 + HexDigitValue(d[2 * k]).value)
    {
      assert ps[k] == HexPairWhite(d[2 * k + 1], d[2 * k]);
    }
  }

  /** An octet made of two nibbles splits back into them. */
  lemma Nibbles(hi: nat, lo: nat)
    requires hi < 16 && lo < 16
    ensures (hi * 16 + lo) % 16 == lo && (hi * 16 + lo) / 16 == hi
  {
  }

  /** The key packs the hex digits two to an octet, the earlier digit in the low nibble. */
  predicate SemiOctets(key: seq<byte>, d: string)
  {
    |d| == 2 * |key| &&
    forall k :: 0 <= k < |key| ==>
      HexDigitValue(d[2 * k]) == Some(key[k] % 16) && HexDigitValue(d[2 * k + 1]) == Some(key[k] / 16)
  }

  /** The key of a string of hex digits: one octet per pair, the earlier digit in the low nibble. */
  lemma KeyOfHexDigits(d: string)
    requires |d| % 2 == 0
    requires forall i :: 0 <= i < |d| ==> HexDigitValue(d[i]).Some? && !IsNumberWhite(d[i])
    ensures KeyOf(Pairs(d), 0).Ok? && SemiOctets(KeyOf(Pairs(d), 0).value, d)
  {
    var ps := Pairs(d);
    PairsOfDigits(d);
    KeyOfSucceeds(ps, 0);
    KeyOfOctets(ps, 0);
    var key := KeyOf(ps, 0).value;
    assert |d| == 2 * |key|;
    forall k | 0 <= k < |key|
      ensures HexDigitValue(d[2 * k]) == Some(key[k] % 16) && HexDigitValue(d[2 * k + 1]) == Some(key[k] / 16)
    {
      var hi, lo := HexDigitValue(d[2 * k + 1]).value, HexDigitValue(d[2 * k]).value;
      assert ps[k] == Some(hi * 16 + lo);
      assert key[k] == hi * 16 + lo;
      Nibbles(hi, lo);
    }
  }

  /** A decimal IMSI gives one octet per two padded digits, the earlier digit in the low nibble:
      the semi-octet order of TS 23.040 addresses. */
  lemma ImsiKeyOfDigits(imsi: string)
    requires forall i :: 0 <= i < |Trim(imsi)| ==> '0' <= Trim(imsi)[i] <= '9'
    ensures ImsiKey(imsi).Ok? && |ImsiKey(imsi).value| == |Trim(imsi)| / 2 + 1
    ensures SemiOctets(ImsiKey(imsi).value, PaddedImsi(imsi))
  {
    PaddedDigits(Trim(imsi));
    KeyOfHexDigits(PaddedImsi(imsi));
  }

  /** A NUL at the end of a PIN survives `Trim` and is accepted by the parser: "12345" and NUL
      pad to "112345", NUL, "F", whose last pair "F" NUL reads as 0x0F. */
  lemma ImsiKeyTrailingNul(pin: string)
    requires pin == "12345\0"
    ensures ImsiKey(pin) == Ok([0x11, 0x32, 0x54, 0x0F])
  {
    TrimUnchanged(pin);
    assert PaddedImsi(pin) == "1" + pin + "F" == "112345\0F";
    KeyOfTrailingNul();
  }

  lemma KeyOfTrailingNul()
    ensures KeyOf(Pairs("112345\0F"), 0) == Ok([0x11, 0x32, 0x54, 0x0F])
  {
    var d := "112345\0F";
    var ps := Pairs(d);
    assert |ps| == 4;
    assert ps[0] == HexPairWhite('1', '1') == Some(0x11);
    assert ps[1] == HexPairWhite('3', '2') == Some(0x32);
    assert ps[2] == HexPairWhite('5', '4') == Some(0x54);
    assert ps[3] == HexPairWhite('F', '\0') == HexPair('0', 'F') == Some(0x0F);
    assert KeyOf(ps, 4) == Ok([]);
    var k3, k2, k1, k0: seq<byte> := [0x0F], [0x54, 0x0F], [0x32, 0x54, 0x0F], [0x11, 0x32, 0x54, 0x0F];
    assert k3 == [0x0F] + [] && k2 == [0x54] + k3 && k1 == [0x32] + k2 && k0 == [0x11] + k1;
    assert KeyOf(ps, 3) == Appended([0x0F], KeyOf(ps, 4)) == Ok(k3);
    assert KeyOf(ps, 2) == Appended([0x54], KeyOf(ps, 3)) == Ok(k2);
    assert KeyOf(ps, 1) == Appended([0x32], KeyOf(ps, 2)) == Ok(k1);
    assert KeyOf(ps, 0) == Appended([0x11], KeyOf(ps, 1)) == Ok(k0);
  }

  /** A character above U+FFFF is never a digit, white space or NUL, so the pair holding it fails
      to parse. The code reads the IMSI in UTF-16 units, whose surrogates fail the same way, so
      both fail for such an IMSI, whichever way the padding falls. */
  lemma ImsiKeyAboveBmpFails(imsi: string, i: nat)
    requires i < |Trim(imsi)| && Trim(imsi)[i] as int >= 0x10000
    ensures ImsiKey(imsi).Err?
  {
    var t := Trim(imsi);
    var d := Padded(t);
    assert d[i + 1] == t[i] by {
      if |t| % 2 == 1 {
        assert d == "9" + t;
      } else {
        assert d == "1" + t + "F";
      }
    }
    KeyFailsAt(d, i + 1);
  }

  /** A character above U+FFFF anywhere in a padded IMSI makes its pair, and so the key, fail. */
  lemma KeyFailsAt(d: string, j: nat)
    requires |d| % 2 == 0 && j < |d| && d[j] as int >= 0x10000
    ensures KeyOf(Pairs(d), 0).Err?
  {
    var ps := Pairs(d);
    var k := j / 2;
    assert ps[k] == HexPairWhite(d[2 * k + 1], d[2 * k]);
    assert HexDigitValue(d[j]).None? && !IsNumberWhite(d[j]) && !IsNul(d[j]);
    assert ps[k].None?;
    KeyOfSucceeds(ps, 0);
  }

  /** `ImsitoKey`: trims the IMSI and pads it to an even length, then fills the key. */
  method ImsiToKey(imsi: Option<string>) returns (r: Result<seq<byte>>)
    ensures imsi.None? ==> r == Err(NullValue)
    ensures imsi.Some? ==> r == ImsiKey(imsi.value)
  {
    if imsi.None? {
      return Err(NullValue);
    }
    var digits := Trim(imsi.value);
    if |digits| % 2 == 1 {
      digits := "9" + digits;
    } else {
      digits := "1" + digits;
      digits := digits + "F";
    }
    assert digits == PaddedImsi(imsi.value);
    r := FillKey(digits);
  }

  /** `byte.TryParse` of the two characters under `NumberStyles.HexNumber`. */
  method TryParseHex(hi: char, lo: char) returns (r: Option<byte>)
    ensures r == HexPairWhite(hi, lo)
  {
    r := ParseHexByte([hi, lo]);
    ParseHexPair(hi, lo);
  }

  /** The loop of `ImsitoKey`: the key octet by octet, two characters per step, each pair parsed
      with `byte.TryParse`. */
  method FillKey(digits: string) returns (r: Result<seq<byte>>)
    requires |digits| % 2 == 0
    ensures r == KeyOf(Pairs(digits), 0)
  {
    var numDigit := |digits|;
    ghost var ps := Pairs(digits);
    var key := new byte[numDigit / 2];
    var t := 0;
    var i := 0;
    assert key[..0] == [];
    assert Appended([], KeyOf(ps, 0)) == KeyOf(ps, 0) by {
      if KeyOf(ps, 0).Ok? {
        assert [] + KeyOf(ps, 0).value == KeyOf(ps, 0).value;
      }
    }
    while i < numDigit
      invariant 0 <= t <= numDigit / 2 && i == 2 * t
      invariant KeyOf(ps, 0) == Appended(key[..t], KeyOf(ps, t))
      decreases numDigit - i
    {
      var c1 := digits[i];
      i := i + 1;
      var c2 := digits[i];
      var parsed := TryParseHex(c2, c1);
      assert parsed == ps[t];
      if parsed.None? {
        assert KeyOf(ps, t) == Err(InvalidImsi);
        return Err(InvalidImsi);
      }
      ghost var done := key[..t];
      key[t] := parsed.value;
      assert key[..t + 1] == done + [parsed.value];
      AppendedStep(done, parsed.value, KeyOf(ps, t + 1));
      t := t + 1;
      i := i + 1;
    }
    assert key[..t] == key[..] && KeyOf(ps, t) == Ok([]);
    assert key[..] + [] == key[..];
    r := Ok(key[..]);
  }

  // ---------------------------------------------------------------------
  // Security key

  /** `GetSecurityKey`: [0x00] without a method, the network PIN key, the user PIN in ASCII or
      the network key followed by the user PIN; USERPINMAC is not supported, and a null PIN
      makes the encoder throw (the user PIN is encoded first). */
  function SecurityKey(m: PushMessage): Result<seq<byte>>
  {
    match m.security
    case NoSecurity => Ok([0x00])
    case NETWPIN => if m.networkPin.None? then Err(NullValue) else ImsiKey(m.networkPin.value)
    case USERPIN => if m.userPin.None? then Err(NullValue) else Ok(Ascii(m.userPin.value))
    case USERNETWPIN =>
      if m.userPin.None? || m.networkPin.None? then Err(NullValue)
      else CombinedKey(ImsiKey(m.networkPin.value), m.userPin.value)
    case USERPINMAC => Err(NotSupported)
  }

  /** The USERNETWPIN key: the network key, or its error, with the user PIN in ASCII behind it. */
  function CombinedKey(netKey: Result<seq<byte>>, userPin: string): Result<seq<byte>>
  {
    if netKey.Err? then Err(netKey.error) else Ok(netKey.value + Ascii(userPin))
  }

  /** The key of each security method: a missing PIN fails, NETWPIN is the network key alone, and
      USERPINMAC never gives a key. */
  lemma SecurityKeyLayout(m: PushMessage)
    ensures m.security == USERPINMAC ==> SecurityKey(m) == Err(NotSupported)
    ensures m.security == NoSecurity ==> SecurityKey(m) == Ok([0x00])
    ensures m.security == NETWPIN && m.networkPin.Some? ==> SecurityKey(m) == ImsiKey(m.networkPin.value)
    ensures m.security in {NETWPIN, USERNETWPIN} && m.networkPin.None? ==> SecurityKey(m) == Err(NullValue)
    ensures m.security in {USERPIN, USERNETWPIN} && m.userPin.None? ==> SecurityKey(m) == Err(NullValue)
    ensures m.security == USERPIN && m.userPin.Some? ==> SecurityKey(m) == Ok(Ascii(m.userPin.value))
    ensures m.security == USERNETWPIN && m.userPin.Some? && m.networkPin.Some? ==>
              SecurityKey(m) == CombinedKey(ImsiKey(m.networkPin.value), m.userPin.value)
  {
  }

  /** The combined key holds the network key in front and the user PIN, one octet per character,
      behind it, and exists exactly when the network key does. */
  lemma CombinedKeyLayout(netKey: Result<seq<byte>>, userPin: string)
    ensures CombinedKey(netKey, userPin).Ok? <==> netKey.Ok?
    ensures netKey.Err? ==> CombinedKey(netKey, userPin) == Err(netKey.error)
    ensures netKey.Ok? ==>
              var key, n := CombinedKey(netKey, userPin).value, |netKey.value|;
              |key| == n + |userPin| && key[..n] == netKey.value &&
              forall i :: 0 <= i < |userPin| && userPin[i] as int < 0x80 ==> key[n + i] == userPin[i] as int
  {
    if netKey.Ok? {
      AsciiBehind(netKey.value, userPin);
    }
  }

  /** A user PIN written behind a key keeps the key in front and its ASCII characters behind. */
  lemma AsciiBehind(front: seq<byte>, pin: string)
    ensures var k := front + Ascii(pin);
            |k| == |front| + |pin| && k[..|front|] == front &&
            forall i :: 0 <= i < |pin| && pin[i] as int < 0x80 ==> k[|front| + i] == pin[i] as int
  {
    var k := front + Ascii(pin);
    assert k[..|front|] == front;
    forall i | 0 <= i < |pin| && pin[i] as int < 0x80
      ensures k[|front| + i] == pin[i] as int
    {
      assert k[|front| + i] == Ascii(pin)[i];
    }
  }

  /** `GetSecurityKey`. */
  method GetSecurityKey(m: PushMessage) returns (r: Result<seq<byte>>)
    ensures r == SecurityKey(m)
  {
    r := Ok([0x00]);
    match m.security {
      case NETWPIN =>
        r := ImsiToKey(m.networkPin);
      case USERPIN =>
        if m.userPin.None? {
          return Err(NullValue);
        }
        r := Ok(Ascii(m.userPin.value));
      case USERNETWPIN =>
        if m.userPin.None? {
          return Err(NullValue);
        }
        var userPin := Ascii(m.userPin.value);
        var netPin := ImsiToKey(m.networkPin);
        if netPin.Err? {
          return Err(netPin.error);
        }
        r := Ok(netPin.value + userPin);
      case USERPINMAC =>
        r := Err(NotSupported);
      case NoSecurity =>
    }
  }

  // ---------------------------------------------------------------------
  // The WSP header

  /** The content-type header and, under a security method, the security header with the MAC of
      the data under the security key. A null content type fails at `ToLower`; the key, a null
      body or an empty MAC can fail after it. */
  function SecurityBlock(m: PushMessage, mac: (seq<byte>, seq<byte>) -> seq<byte>): Result<seq<byte>>
  {
    if m.contentType.None? then Err(NullValue)
    else
      var contentType := ContentTypeHeader(m.contentType.value);
      if m.security == NoSecurity then Ok(contentType)
      else
        var key := SecurityKey(m);
        if key.Err? then Err(key.error)
        else if m.data.None? then Err(NullValue)
        else Appended(contentType, SecurityHeader(m.security, mac(key.value, m.data.value)))
  }

  /** The Push-Flag header, present when the flag is not zero. */
  function PushFlagPart(m: PushMessage): (r: seq<byte>)
    ensures r == [] <==> m.pushFlag == 0
    ensures r != [] ==> r[0] == 0xB4
  {
    if m.pushFlag != 0 then PushFlagHeader(m.pushFlag) else []
  }

  /** The X-WAP-Initiator-URI header, present when the URI is neither null nor empty. */
  function InitiatorPart(m: PushMessage): (r: seq<byte>)
    ensures r == [] <==> !Present(m.initiatorUri)
    ensures r != [] ==> r[0] == 0xB1
  {
    if Present(m.initiatorUri) then TextHeader(HeaderInitiatorUri, m.initiatorUri.value).value else []
  }

  /** The X-WAP-Content-URI header, present when the URI is neither null nor empty. */
  function ContentUriPart(m: PushMessage): (r: seq<byte>)
    ensures r == [] <==> !Present(m.contentUri)
    ensures r != [] ==> r[0] == 0xB0
  {
    if Present(m.contentUri) then TextHeader(HeaderContentUri, m.contentUri.value).value else []
  }

  /** The X-WAP-Application-ID header, present when the type is neither null nor empty. */
  function AppIdPart(m: PushMessage): (r: seq<byte>)
    ensures r == [] <==> !Present(m.applicationType)
    ensures r != [] ==> r[0] == 0xAF
  {
    if Present(m.applicationType) then AppIdHeader(m.applicationType.value).value else []
  }

  /** The optional headers, in the order push flag, initiator URI, content URI, application ID. */
  function OptionalHeaders(m: PushMessage): seq<byte>
  {
    PushFlagPart(m) + InitiatorPart(m) + ContentUriPart(m) + AppIdPart(m)
  }

  /** A header around a security block and the optional headers: transaction id, PDU type, the
      header length cast to a byte, the value-length of the block, the block, the optional headers. */
  function Frame(block: seq<byte>, optional: seq<byte>): seq<byte>
  {
    var headers := ValueLength(|block|) + block + optional;
    [TransactionIdConnectionless, PduTypePush, ByteOf(|headers|)] + headers
  }

  /** `GetWAPWSPHeaderBytes` as a value: the frame of the security block, or its error. */
  function HeaderBytes(m: PushMessage, mac: (seq<byte>, seq<byte>) -> seq<byte>): Result<seq<byte>>
  {
    var block := SecurityBlock(m, mac);
    if block.Err? then Err(block.error) else Ok(Frame(block.value, OptionalHeaders(m)))
  }

  /** A frame opens with 0x01 0x06 and the header length mod 256, so a header block of 256 octets
      or more is misdescribed; the value-length reads back as the block length, and the block and
      the optional headers follow it. */
  lemma FrameLayout(s: seq<byte>, o: seq<byte>)
    ensures var r, k := Frame(s, o), |ValueLength(|s|)|;
            |r| == 3 + k + |s| + |o| &&
            r[0] == 0x01 && r[1] == 0x06 && r[2] == (|r| - 3) % 256 &&
            ParseValueLength(r[3..]) == Some((|s|, k)) &&
            r[3 + k..3 + k + |s|] == s && r[3 + k + |s|..] == o
  {
    var v := ValueLength(|s|);
    var r := Frame(s, o);
    assert r[3..] == v + s + o;
    AppendAssoc(v, s, o);
    ValueLengthRoundTrip(|s|, s + o);
    assert r[3 + |v|..3 + |v| + |s|] == s;
  }

  /** The optional part is empty exactly when no optional header is set. */
  lemma OptionalHeadersEmpty(m: PushMessage)
    ensures OptionalHeaders(m) == [] <==>
              m.pushFlag == 0 && !Present(m.initiatorUri) && !Present(m.contentUri) && !Present(m.applicationType)
  {
  }

  /** The security block is the content type alone without a security method; under one, the
      content type is followed by the security header carrying the MAC of the data under the
      security key. A null content type, a key that cannot be made or null data fails. */
  lemma SecurityBlockLayout(m: PushMessage, mac: (seq<byte>, seq<byte>) -> seq<byte>)
    ensures m.contentType.None? ==> SecurityBlock(m, mac) == Err(NullValue)
    ensures m.contentType.Some? && m.security == NoSecurity ==>
              SecurityBlock(m, mac) == Ok(ContentTypeHeader(m.contentType.value))
    ensures m.contentType.Some? && m.security != NoSecurity && SecurityKey(m).Err? ==>
              SecurityBlock(m, mac) == Err(SecurityKey(m).error)
    ensures m.contentType.Some? && m.security != NoSecurity && SecurityKey(m).Ok? && m.data.None? ==>
              SecurityBlock(m, mac) == Err(NullValue)
    ensures m.contentType.Some? && m.security != NoSecurity && SecurityKey(m).Ok? && m.data.Some? ==>
              var c, macKey := ContentTypeHeader(m.contentType.value), mac(SecurityKey(m).value, m.data.value);
              (SecurityBlock(m, mac).Ok? <==> macKey != []) &&
              (SecurityBlock(m, mac).Ok? ==>
                 SecurityBlock(m, mac).value[..|c|] == c &&
                 SecurityBlock(m, mac).value[|c|..] == SecurityHeader(m.security, macKey).value)
  {
    if m.contentType.Some? && m.security != NoSecurity && SecurityKey(m).Ok? && m.data.Some? {
      var c, macKey := ContentTypeHeader(m.contentType.value), mac(SecurityKey(m).value, m.data.value);
      if macKey == [] {
        SecurityHeaderFails(m.security);
      } else {
        SecurityHeaderShape(m.security, macKey, []);
        Split(c, SecurityHeader(m.security, macKey).value);
      }
    }
  }

  /** The first half of `GetWAPWSPHeaderBytes`: the content type, then under a security method
      the security header with the MAC of the data under the key. */
  method GetSecurityStream(m: PushMessage, mac: (seq<byte>, seq<byte>) -> seq<byte>) returns (r: Result<seq<byte>>)
    ensures r == SecurityBlock(m, mac)
  {
    var securityStream: seq<byte> := [];
    if m.contentType.None? {
      return Err(NullValue);
    }
    securityStream := WriteHeaderContentType(securityStream, m.contentType.value);
    assert securityStream == ContentTypeHeader(m.contentType.value);
    if m.security != NoSecurity {
      var key := GetSecurityKey(m);
      if key.Err? {
        return Err(key.error);
      }
      if m.data.None? {
        return Err(NullValue);
      }
      var macKey := mac(key.value, m.data.value);
      var written := WriteHeaderSecurity(securityStream, m.security, macKey);
      if written.Err? {
        return Err(written.error);
      }
      securityStream := written.value;
    }
    r := Ok(securityStream);
  }

  /** `GetWAPWSPHeaderBytes`: the security stream, then the headers stream (its value-length, the
      security stream and the optional headers), then the header length and the headers stream. */
  method GetWapWspHeaderBytes(m: PushMessage, mac: (seq<byte>, seq<byte>) -> seq<byte>) returns (r: Result<seq<byte>>)
    ensures r == HeaderBytes(m, mac)
  {
    var stream: seq<byte> := [TransactionIdConnectionless];
    stream := stream + [PduTypePush];
    var headersStream: seq<byte> := [];
    var security := GetSecurityStream(m, mac);
    if security.Err? {
      return Err(security.error);
    }
    var securityStream := security.value;
    headersStream := WriteValueLength(headersStream, |securityStream|);
    assert headersStream == ValueLength(|securityStream|) by {
      assert [] + ValueLength(|securityStream|) == ValueLength(|securityStream|);
    }
    headersStream := headersStream + securityStream;
    headersStream := WriteOptionalHeaders(headersStream, m);
    assert headersStream == ValueLength(|securityStream|) + securityStream + OptionalHeaders(m);
    stream := stream + [ByteOf(|headersStream|)];
    assert stream == [TransactionIdConnectionless, PduTypePush, ByteOf(|headersStream|)];
    stream := stream + headersStream;
    r := Ok(stream);
  }

  /** The optional header writes, each under its own condition. */
  method WriteOptionalHeaders(stream: seq<byte>, m: PushMessage) returns (r: seq<byte>)
    ensures r == stream + OptionalHeaders(m)
  {
    r := stream;
    if m.pushFlag != 0 {
      r := WriteHeaderPushFlag(r, m.pushFlag);
    }
    assert r == stream + PushFlagPart(m);
    ghost var s1 := r;
    if Present(m.initiatorUri) {
      var written := WriteHeaderXWAPInitiatorURI(r, m.initiatorUri.value);
      r := written.value;
    }
    assert r == s1 + InitiatorPart(m);
    ghost var s2 := r;
    if Present(m.contentUri) {
      var written := WriteHeaderXWAPContentURI(r, m.contentUri.value);
      r := written.value;
    }
    assert r == s2 + ContentUriPart(m);
    ghost var s3 := r;
    if Present(m.applicationType) {
      var written := WriteHeaderXWAPApplicationID(r, m.applicationType.value);
      r := written.value;
    }
    assert r == s3 + AppIdPart(m);
    AppendFour(stream, PushFlagPart(m), InitiatorPart(m), ContentUriPart(m), AppIdPart(m));
  }

  // ---------------------------------------------------------------------
  // The message content

  /** `GetSMSBytes` as a value: the WSP header followed by the data; null data fails. */
  function SmsBytes(m: PushMessage, mac: (seq<byte>, seq<byte>) -> seq<byte>): (r: Result<seq<byte>>)
    ensures var h := HeaderBytes(m, mac);
            (r.Err? <==> h.Err? || m.data.None?) &&
            (r.Ok? ==> |r.value| == |h.value| + |m.data.value| &&
                       r.value[..|h.value|] == h.value && r.value[|h.value|..] == m.data.value)
  {
    var header := HeaderBytes(m, mac);
    if header.Err? then Err(header.error)
    else if m.data.None? then Err(NullValue)
    else
      Split(header.value, m.data.value);
      Ok(header.value + m.data.value)
  }

  /** Both halves of a concatenation can be cut back out of it. */
  lemma Split(a: seq<byte>, b: seq<byte>)
    ensures (a + b)[..|a|] == a && (a + b)[|a|..] == b
  {
  }

  /** `GetSMSBytes`. */
  method GetSmsBytes(m: PushMessage, mac: (seq<byte>, seq<byte>) -> seq<byte>) returns (r: Result<seq<byte>>)
    ensures r == SmsBytes(m, mac)
  {
    var headerBuffer := GetWapWspHeaderBytes(m, mac);
    if headerBuffer.Err? {
      return Err(headerBuffer.error);
    }
    var stream := headerBuffer.value;
    if m.data.None? {
      return Err(NullValue);
    }
    stream := stream + m.data.value;
    r := Ok(stream);
  }

  /** `GetUDHBytes`: the application-port header of the two ports. */
  function UdhBytes(m: PushMessage): (r: seq<byte>)
    ensures |r| == 6 && r[0] == ApplicationPortIe && r[1] == 4
    ensures OctetsValue(r[2..4]) == m.destinationPort % 65536 && OctetsValue(r[4..]) == m.sourcePort % 65536
  {
    WdpHeaderLayout(m.destinationPort, m.sourcePort);
    WdpHeader(m.destinationPort, m.sourcePort)
  }
}
