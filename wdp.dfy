/**
 * The WDP addressing of SharpSMS.Wap.WdpMessage: the application port addressing
 * information element of 3GPP TS 23.040 section 9.2.3.24.4 (identifier 0x05,
 * length 4), carrying the destination and the source port as 16-bit big-endian
 * numbers. Ports are non-negative here.
 */
module Wdp {
  import opened Wrappers
  import opened Arith
  import opened Radix
  import opened Wsp

  const ApplicationPortIe: byte := 0x05
  const PushSessionDestination: nat := 0x0B84
  const PushSessionSource: nat := 0x23F0

  /** `(byte)(number >> (8 * k))` on a non-negative C# `long`, whose shift count is taken mod 64. */
  function OctetAt(number: nat, k: nat): byte
  {
    ByteOf(Shift(number, 256, k % 8))
  }

  /** What `ToBigEndian(number, byteLen)` stores: the number itself at the last index and, at
      every index i before it, the number shifted right by 8 (i + 1). */
  function BigEndianAsWritten(number: nat, byteLen: nat): (r: seq<byte>)
    requires byteLen >= 1
    ensures |r| == byteLen && r[byteLen - 1] == number % 256
  {
    seq(byteLen, i requires 0 <= i < byteLen =>
      if i == byteLen - 1 then ByteOf(number) else OctetAt(number, i + 1))
  }

  /** `WdpMessage.ToBigEndian` as written. With a zero length the first store is out of range. */
  method ToBigEndianAsWritten(number: nat, byteLen: byte) returns (r: Result<seq<byte>>)
    ensures r.Err? <==> byteLen == 0
    ensures r.Ok? ==> r.value == BigEndianAsWritten(number, byteLen)
  {
    if byteLen == 0 {
      return Err(IndexOutOfRange);
    }
    var outputArray := new byte[byteLen];
    outputArray[byteLen - 1] := ByteOf(number);
    var i := byteLen - 2;
    while i >= 0
      invariant -1 <= i <= byteLen - 2
      invariant outputArray[byteLen - 1] == ByteOf(number)
      invariant forall j :: i < j < byteLen - 1 ==> outputArray[j] == OctetAt(number, j + 1)
    {
      outputArray[i] := OctetAt(number, i + 1);
      i := i - 1;
    }
    r := Ok(outputArray[..]);
  }

  /** The byteLen-octet big-endian form of a number, most significant octet first. */
  function BigEndian(number: nat, byteLen: nat): (r: seq<byte>)
    ensures |r| == byteLen
  {
    if byteLen == 0 then [] else BigEndian(number / 256, byteLen - 1) + [ByteOf(number)]
  }

  /** Octet i of the big-endian form is the number shifted right by 8 (byteLen - 1 - i). */
  lemma {:induction false} BigEndianAt(number: nat, byteLen: nat, i: nat)
    requires i < byteLen
    ensures BigEndian(number, byteLen)[i] == ByteOf(Shift(number, 256, byteLen - 1 - i))
  {
    if i < byteLen - 1 {
      BigEndianAt(number / 256, byteLen - 1, i);
    }
  }

  /** A number that fits reads back from its big-endian form. */
  lemma {:induction false} BigEndianValue(number: nat, byteLen: nat)
    requires number < Power(256, byteLen)
    ensures OctetsValue(BigEndian(number, byteLen)) == number
  {
    if byteLen > 0 {
      var r, q := BigEndian(number, byteLen), number / 256;
      var p := Power(256, byteLen - 1);
      assert number < p * 256;
      assert q * 256 <= number;
      assert q < p;
      assert r[..byteLen - 1] == BigEndian(q, byteLen - 1);
      BigEndianValue(q, byteLen - 1);
      assert OctetsValue(r) == q * 256 + number % 256;
    }
  }

  /** Two octets keep the number mod 65536: a larger port is silently truncated. */
  lemma PortValue(number: nat)
    ensures BigEndian(number, 2) == [(number / 256) % 256, number % 256]
    ensures OctetsValue(BigEndian(number, 2)) == number % 65536
  {
    var q, r := number / 256, number % 256;
    var s: seq<byte> := [q % 256, r];
    assert BigEndian(number, 2) == s;
    assert s[..1][..0] == [];
    assert OctetsValue(s[..1]) == q % 256;
    assert OctetsValue(s) == (q % 256) * 256 + r;
    assert number == 65536 * (q / 256) + ((q % 256) * 256 + r);
  }

  /** `ToBigEndian` with the octets in the intended order: index i holds the number shifted right
      by 8 (byteLen - 1 - i), for up to the eight octets of a `long`. */
  method ToBigEndian(number: nat, byteLen: nat) returns (r: seq<byte>)
    requires byteLen <= 8
    ensures r == BigEndian(number, byteLen)
  {
    if byteLen == 0 {
      return [];
    }
    var outputArray := new byte[byteLen];
    outputArray[byteLen - 1] := ByteOf(number);
    var i := byteLen - 2;
    while i >= 0
      invariant -1 <= i <= byteLen - 2
      invariant forall j :: i < j < byteLen ==> outputArray[j] == BigEndian(number, byteLen)[j]
    {
      BigEndianAt(number, byteLen, i);
      outputArray[i] := OctetAt(number, byteLen - 1 - i);
      i := i - 1;
    }
    BigEndianAt(number, byteLen, byteLen - 1);
    r := outputArray[..];
  }

  /** The written order is right for the two-octet ports the header uses. */
  lemma BigEndianAsWrittenAgreesAtTwo(number: nat)
    ensures BigEndianAsWritten(number, 2) == BigEndian(number, 2)
  {
    BigEndianAt(number, 2, 0);
    BigEndianAt(number, 2, 1);
  }

  /** From three octets on, the written order is wrong: 0x010203 comes out as 02 01 03. */
  lemma BigEndianAsWrittenMisorders()
    ensures BigEndianAsWritten(0x010203, 3) == [0x02, 0x01, 0x03]
    ensures BigEndian(0x010203, 3) == [0x01, 0x02, 0x03]
  {
    assert Shift(0x010203, 256, 1) == 0x0102;
    assert Shift(0x010203, 256, 2) == 0x01;
  }

  /** The header `GetWdpHeader` writes for two ports. */
  function WdpHeader(destinationPort: nat, sourcePort: nat): (r: seq<byte>)
  {
    [ApplicationPortIe, 4] + BigEndian(destinationPort, 2) + BigEndian(sourcePort, 2)
  }

  /** Six octets: the identifier, the length 4, then each port mod 65536, destination first. */
  lemma WdpHeaderLayout(destinationPort: nat, sourcePort: nat)
    ensures var h := WdpHeader(destinationPort, sourcePort);
            |h| == 6 && h[0] == 0x05 && h[1] == 4 &&
            OctetsValue(h[2..4]) == destinationPort % 65536 && OctetsValue(h[4..]) == sourcePort % 65536
  {
    var h := WdpHeader(destinationPort, sourcePort);
    PortValue(destinationPort);
    PortValue(sourcePort);
    assert h[2..4] == BigEndian(destinationPort, 2);
    assert h[4..] == BigEndian(sourcePort, 2);
  }

  /** `WdpMessage.GetWdpHeader`: the identifier, the combined length of the two port encodings,
      then the destination and the source port. */
  method GetWdpHeader(destinationPort: nat, sourcePort: nat) returns (r: seq<byte>)
    ensures r == WdpHeader(destinationPort, sourcePort)
  {
    var destPort := ToBigEndian(destinationPort, 2);
    var srcPort := ToBigEndian(sourcePort, 2);
    var stream := [ApplicationPortIe];
    stream := stream + [ByteOf(|destPort| + |srcPort|)];
    stream := stream + destPort;
    stream := stream + srcPort;
    r := stream;
  }
}
