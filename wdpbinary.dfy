/**
 * SharpSMS.Wap.WdpBinaryMessage: binary data sent to a WDP port pair, the ports carried in an
 * application-port user data header.
 */
module WdpBinaryMessage {
  import opened Wrappers
  import opened Arith
  import opened SmsEnums
  import opened Wsp
  import opened Wdp

  /** The ports of `WdpMessage`, the alphabet and the data (`None` when null). */
  datatype BinaryMessage = BinaryMessage(
    destinationPort: nat, sourcePort: nat, encoding: DataEncoding, data: Option<seq<byte>>)

  /** `new WdpBinaryMessage(data)`: the push session ports and 8-bit data. */
  function NewBinaryMessage(data: Option<seq<byte>>): (m: BinaryMessage)
    ensures m.destinationPort == 0x0B84 && m.sourcePort == 0x23F0
    ensures m.encoding == Data8bit && m.data == data
  {
    BinaryMessage(PushSessionDestination, PushSessionSource, Data8bit, data)
  }

  /** `new WdpBinaryMessage()`: the same with null data. */
  function DefaultBinaryMessage(): (m: BinaryMessage)
    ensures m == NewBinaryMessage(None)
  {
    NewBinaryMessage(None)
  }

  /** `GetSMSBytes`: the data itself, null included. */
  function SmsBytes(m: BinaryMessage): (r: Option<seq<byte>>)
    ensures r == m.data
  {
    m.data
  }

  /** `GetUDHBytes`: the application-port header of the two ports. */
  function UdhBytes(m: BinaryMessage): (r: seq<byte>)
    ensures |r| == 6 && r[0] == ApplicationPortIe && r[1] == 4
    ensures OctetsValue(r[2..4]) == m.destinationPort % 65536 && OctetsValue(r[4..]) == m.sourcePort % 65536
  {
    WdpHeaderLayout(m.destinationPort, m.sourcePort);
    WdpHeader(m.destinationPort, m.sourcePort)
  }

  /** The header depends on the two ports alone: messages that agree on them agree on it, and
      ports that differ below 65536 give different headers. */
  lemma UdhDependsOnPorts(a: BinaryMessage, b: BinaryMessage)
    ensures a.destinationPort == b.destinationPort && a.sourcePort == b.sourcePort ==> UdhBytes(a) == UdhBytes(b)
    ensures UdhBytes(a) == UdhBytes(b) ==>
              a.destinationPort % 65536 == b.destinationPort % 65536 && a.sourcePort % 65536 == b.sourcePort % 65536
  {
    var ra, rb := UdhBytes(a), UdhBytes(b);
    if ra == rb {
      assert ra[2..4] == rb[2..4] && ra[4..] == rb[4..];
    }
  }
}
