/**
 * SharpSMS.ISmsMessageContent: what an SMS-SUBMIT carries. The three implementations are the
 * cases of one datatype; the user data is what `SMSSubmit.GetPDUList` reads from it, so a null
 * body (`body.Length` on it) fails here.
 */
module SmsContent {
  import opened Wrappers
  import opened Arith
  import opened SmsEnums
  import opened Wdp
  import TextMessage
  import WdpBinaryMessage
  import WapPushMessage

  datatype Content =
    | Text(text: TextMessage.Message)
    | Binary(binary: WdpBinaryMessage.BinaryMessage)
    | Push(push: WapPushMessage.PushMessage)

  /** `ISmsMessageContent.DataEncoding`. */
  function Encoding(c: Content): DataEncoding
  {
    match c
    case Text(m) => m.encoding
    case Binary(m) => m.encoding
    case Push(m) => m.encoding
  }

  /** `ISmsMessageContent.GetSMSBytes`, with the null array a binary message returns for null
      data made the error that reading its length raises. */
  function SmsBytes(c: Content, mac: (seq<byte>, seq<byte>) -> seq<byte>): (r: Result<seq<byte>>)
    ensures c.Text? ==> r == TextMessage.SmsBytes(c.text)
    ensures c.Binary? ==> (r.Ok? <==> c.binary.data.Some?) && (r.Ok? ==> r.value == c.binary.data.value)
    ensures c.Push? ==> r == WapPushMessage.SmsBytes(c.push, mac)
    ensures r.Err? && c.Binary? ==> r.error == NullValue
  {
    match c
    case Text(m) => TextMessage.SmsBytes(m)
    case Binary(m) =>
      var data := WdpBinaryMessage.SmsBytes(m);
      if data.None? then Err(NullValue) else Ok(data.value)
    case Push(m) => WapPushMessage.SmsBytes(m, mac)
  }

  /** `ISmsMessageContent.GetUDHBytes`. */
  function UdhBytes(c: Content): seq<byte>
  {
    match c
    case Text(m) => TextMessage.UdhBytes(m)
    case Binary(m) => WdpBinaryMessage.UdhBytes(m)
    case Push(m) => WapPushMessage.UdhBytes(m)
  }

  /** Plain text carries no user data header and the WAP contents carry exactly the six octets of
      the application-port element, so a header never takes more than six octets. */
  lemma UdhBytesShape(c: Content)
    ensures UdhBytes(c) == [] <==> c.Text?
    ensures !c.Text? ==> |UdhBytes(c)| == 6 && UdhBytes(c)[0] == ApplicationPortIe
    ensures |UdhBytes(c)| <= 6
  {
  }
}
