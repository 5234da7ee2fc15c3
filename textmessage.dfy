/**
 * SharpSMS.TextMessage: plain text, encoded in the alphabet the message names and sent without
 * a user data header.
 */
module TextMessage {
  import opened Wrappers
  import opened Arith
  import opened Text
  import opened SmsEnums

  /** The text (`None` when null) and the alphabet. */
  datatype Message = Message(text: Option<string>, encoding: DataEncoding)

  /** `new TextMessage()`: the default alphabet and the empty text. */
  function NewTextMessage(): (m: Message)
    ensures m.text == Some([]) && m.encoding == Default7bit
  {
    Message(Some([]), Default7bit)
  }

  /** `GetDataBytes`: ASCII for the default alphabet, ISO-8859-1 for 8-bit data and big-endian
      UTF-16 for UCS2. A null text makes the encoder throw. */
  function DataBytes(m: Message): (r: Result<seq<byte>>)
    ensures r.Err? <==> m.text.None?
    ensures r.Err? ==> r.error == NullValue
    ensures r.Ok? && m.encoding != UCS2_16bit ==> |r.value| == |m.text.value|
    ensures r.Ok? && m.text.value == [] ==> r.value == []
  {
    match m.text
    case None => Err(NullValue)
    case Some(text) =>
      match m.encoding
      case Default7bit => Ok(Ascii(text))
      case Data8bit => Ok(Latin1(text))
      case UCS2_16bit => Ok(Utf16BE(text))
  }

  /** `GetSMSBytes`: the encoded text, with no header in front of it. */
  function SmsBytes(m: Message): (r: Result<seq<byte>>)
    ensures r == DataBytes(m)
  {
    DataBytes(m)
  }

  /** `GetUDHBytes`: plain text carries no user data header. */
  function UdhBytes(m: Message): (r: seq<byte>)
    ensures r == []
  {
    []
  }

  /** UCS2 gives two octets per UTF-16 code unit. */
  lemma {:induction false} Utf16BELength(s: string)
    ensures |Utf16BE(s)| == 2 * Utf16Length(s)
  {
    if s != [] {
      Utf16BELength(s[1..]);
    }
  }

  /** Text inside the Basic Multilingual Plane takes two octets per character. */
  lemma {:induction false} Utf16BEOfBmpLength(s: string)
    requires forall j :: 0 <= j < |s| ==> s[j] as int < 0x10000
    ensures |Utf16BE(s)| == 2 * |s|
  {
    if s != [] {
      assert s[0] as int < 0x10000;
      Utf16BEOfBmpLength(s[1..]);
    }
  }

  /** A character below 0x10000 is its code unit, high octet first. */
  lemma {:induction false} Utf16BEOfBmp(s: string, i: nat)
    requires i < |s| && forall j :: 0 <= j < |s| ==> s[j] as int < 0x10000
    ensures |Utf16BE(s)| == 2 * |s|
    ensures Utf16BE(s)[2 * i] as int * 256 + Utf16BE(s)[2 * i + 1] as int == s[i] as int
  {
    Utf16BEOfBmpLength(s);
    if i == 0 {
      var v := s[0] as int;
      assert Utf16BE(s)[..2] == Utf16Char(s[0]) == [ByteOf(v / 256), ByteOf(v)];
    } else {
      Utf16BEOfBmp(s[1..], i - 1);
      assert Utf16BE(s)[2..] == Utf16BE(s[1..]);
    }
  }

  /** Each alphabet's body reads back: in 7-bit and 8-bit every octet is its character (ASCII and
      Latin-1 text respectively), and in UCS2 every pair of octets is its character's code unit
      (text inside the Basic Multilingual Plane). */
  lemma DataBytesRoundTrip(m: Message, i: nat)
    requires m.text.Some? && i < |m.text.value|
    ensures var t, r := m.text.value, DataBytes(m).value;
            match m.encoding
            case Default7bit => t[i] as int < 0x80 ==> r[i] == t[i] as int
            case Data8bit => t[i] as int < 0x100 ==> r[i] == t[i] as int
            case UCS2_16bit =>
              (forall j :: 0 <= j < |t| ==> t[j] as int < 0x10000) ==>
                |r| == 2 * |t| && r[2 * i] as int * 256 + r[2 * i + 1] as int == t[i] as int
  {
    var t := m.text.value;
    if m.encoding == UCS2_16bit && forall j :: 0 <= j < |t| ==> t[j] as int < 0x10000 {
      Utf16BEOfBmp(t, i);
    }
  }

  /** The body length in each alphabet: one octet per character, or two per UTF-16 code unit. */
  lemma DataBytesLength(m: Message)
    requires m.text.Some?
    ensures |DataBytes(m).value| == if m.encoding == UCS2_16bit then 2 * Utf16Length(m.text.value) else |m.text.value|
  {
    Utf16BELength(m.text.value);
  }
}
