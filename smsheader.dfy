/**
 * The SMS-SUBMIT header fields written by SharpSMS.SMSSubmit (3GPP TS 23.040
 * section 9.2.2.2): the first octet, the relative validity period (section
 * 9.2.3.12.1) and the destination address in semi-octets (section 9.1.2.5).
 */
module SmsHeader {
  import opened Wrappers
  import opened Arith
  import opened Text

  const FirstOctetSmsSubmit: byte := 0x01
  const FirstOctetValidityRelative: byte := 0x10
  const FirstOctetDeliveryConfirmation: byte := 0x20
  const FirstOctetUserDataHeader: byte := 0x40

  const NumberFormatNational: byte := 0x81
  const NumberFormatInternational: byte := 0x91

  // ---------------------------------------------------------------------
  // First octet

  /** `SMSSubmit.GetFirstOctet`: TP-MTI SMS-SUBMIT, with TP-VPF "relative" when a validity period
      is set, TP-SRR on a delivery-confirmation request and TP-UDHI when a user data header follows.
      Each flag can be read back from its own bit, and TP-RD and TP-RP stay clear. */
  function FirstOctet(validitySet: bool, deliveryConfirmation: bool, hasCustomHeader: bool): (r: byte)
    ensures r % 16 == 1 && r < 0x80
    ensures (r / 0x10) % 2 == 1 <==> validitySet
    ensures (r / 0x20) % 2 == 1 <==> deliveryConfirmation
    ensures (r / 0x40) % 2 == 1 <==> hasCustomHeader
  {
    FirstOctetSmsSubmit
      + (if validitySet then FirstOctetValidityRelative else 0)
      + (if deliveryConfirmation then FirstOctetDeliveryConfirmation else 0)
      + (if hasCustomHeader then FirstOctetUserDataHeader else 0)
  }

  // ---------------------------------------------------------------------
  // Relative validity period

  /** The days, hours and minutes of a .NET `TimeSpan`; seconds do not take part in the encoding. */
  datatype TimeSpan = TimeSpan(days: int, hours: int, minutes: int)
  {
    /** What every `TimeSpan` satisfies: bounded hour and minute components, all of one sign. */
    predicate Valid()
    {
      -24 < hours < 24 && -60 < minutes < 60 &&
      ((days >= 0 && hours >= 0 && minutes >= 0) || (days <= 0 && hours <= 0 && minutes <= 0))
    }

    predicate NonNegative()
    {
      days >= 0 && hours >= 0 && minutes >= 0
    }

    function TotalMinutes(): int
    {
      days * 1440 + hours * 60 + minutes
    }
  }

  /** The period a TP-VP octet in relative format stands for, in minutes (TS 23.040 9.2.3.12.1). */
  function ValidityMinutes(vp: byte): (t: nat)
    ensures t >= 5
  {
    if vp <= 143 then (vp + 1) * 5
    else if vp <= 167 then 720 + (vp - 143) * 30
    else if vp <= 196 then (vp - 166) * 1440
    else (vp - 192) * 10080
  }

  /** `SMSSubmit.GetValidityPeriod` as written. Every quotient below has a non-negative dividend
      in the branch that takes it, so C#'s truncating division and Dafny's agree. */
  function RelativeValidityAsWritten(v: TimeSpan): byte
    requires v.Valid()
  {
    var value := if v.days > 441 then TimeSpan(440, 0, 0) else v;
    if value.days > 30 then ByteOf(192 + value.days / 7)
    else if value.days > 1 then ByteOf(166 + value.days)
    else if value.hours > 12 then ByteOf(143 + (value.hours - 12) * 2 + value.minutes / 30)
    else if value.hours > 1 || value.minutes > 1 then ByteOf(value.hours * 12 + value.minutes / 5 - 1)
    else 0x00
  }

  /** The relative validity period with the band edges the encoding table calls for: a single day
      is the 24-hour value, twelve hours and more take the half-hour band, and anything shorter
      than ten minutes is the five-minute minimum rather than a wrapped-around 255. */
  function RelativeValidity(v: TimeSpan): byte
    requires v.Valid()
  {
    var value := if v.days > 441 then TimeSpan(440, 0, 0) else v;
    if value.days > 30 then 192 + value.days / 7
    else if value.days > 1 then 166 + value.days
    else if value.days == 1 then 167
    else if value.hours >= 12 then 143 + (value.hours - 12) * 2 + value.minutes / 30
    else if value.hours * 12 + value.minutes / 5 - 1 > 0 then value.hours * 12 + value.minutes / 5 - 1
    else 0x00
  }

  function Max(a: int, b: int): int { if a >= b then a else b }

  /** The encoded period never runs past the requested one (beyond the five-minute minimum), and
      up to the 441-day ceiling it is at least half of what was requested. */
  lemma ValidityWithinFactorTwo(v: TimeSpan)
    requires v.Valid() && v.NonNegative()
    ensures ValidityMinutes(RelativeValidity(v)) <= Max(v.TotalMinutes(), 5)
    ensures v.days <= 441 ==> v.TotalMinutes() <= 2 * ValidityMinutes(RelativeValidity(v))
  {
    var t := v.TotalMinutes();
    var d := ValidityMinutes(RelativeValidity(v));
    if v.days > 441 {
      assert d == 62 * 10080;
    } else if v.days > 30 {
      var w := v.days / 7;
      assert 7 * w <= v.days < 7 * w + 7;
      assert d == w * 10080 || (w == 4 && d == 30 * 1440);
    } else if v.days >= 1 {
      assert d == (if v.days == 1 then 1440 else v.days * 1440);
    } else if v.hours >= 12 {
      var h := v.minutes / 30;
      assert 30 * h <= v.minutes < 30 * h + 30;
      assert d == 720 + ((v.hours - 12) * 2 + h) * 30;
    } else {
      var f := v.minutes / 5;
      assert 5 * f <= v.minutes < 5 * f + 5;
      var vp := v.hours * 12 + f - 1;
      assert d == (if vp > 0 then (vp + 1) * 5 else 5);
    }
  }

  /** The code as written breaks both bounds: three minutes wraps to 255 (63 weeks), twelve and a
      half hours lands in the half-hour band at fifteen hours, and a whole day or a whole hour
      falls through to the five-minute value. */
  lemma ValidityAsWrittenCounterexamples()
    ensures RelativeValidityAsWritten(TimeSpan(0, 0, 3)) == 255
    ensures ValidityMinutes(255) == 63 * 10080
    ensures RelativeValidityAsWritten(TimeSpan(0, 12, 30)) == 149
    ensures ValidityMinutes(149) == 900 && TimeSpan(0, 12, 30).TotalMinutes() == 750
    ensures RelativeValidityAsWritten(TimeSpan(1, 0, 0)) == 0 && RelativeValidityAsWritten(TimeSpan(0, 1, 0)) == 0
    ensures ValidityMinutes(0) == 5
    ensures RelativeValidity(TimeSpan(0, 0, 3)) == 0 && RelativeValidity(TimeSpan(0, 12, 30)) == 144
    ensures RelativeValidity(TimeSpan(1, 0, 0)) == 167 && RelativeValidity(TimeSpan(0, 1, 0)) == 11
  {}

  /** Away from the defective edges both versions agree, e.g. two days is 168 and the 441-day
      ceiling is 255. */
  lemma ValidityBandExamples()
    ensures RelativeValidityAsWritten(TimeSpan(2, 0, 0)) == RelativeValidity(TimeSpan(2, 0, 0)) == 168
    ensures RelativeValidityAsWritten(TimeSpan(441, 0, 0)) == RelativeValidity(TimeSpan(441, 0, 0)) == 255
    ensures RelativeValidityAsWritten(TimeSpan(1000, 5, 0)) == RelativeValidity(TimeSpan(1000, 5, 0)) == 254
    ensures RelativeValidityAsWritten(TimeSpan(0, 13, 30)) == RelativeValidity(TimeSpan(0, 13, 30)) == 146
    ensures RelativeValidityAsWritten(TimeSpan(0, 2, 0)) == RelativeValidity(TimeSpan(0, 2, 0)) == 23
    ensures RelativeValidityAsWritten(TimeSpan(-3, -2, 0)) == RelativeValidity(TimeSpan(-3, -2, 0)) == 0
  {}

  // ---------------------------------------------------------------------
  // Destination address

  /** The semi-octet `SMSSubmit.WriteBcdNumber` gives a UTF-16 unit: its decimal value for a digit,
      A for '*', B for '#', C for 'a', E for 'b' and 0 for anything else, a surrogate included. */
  function DigitNibble(u: nat): (n: nat)
    ensures n < 16
  {
    if '0' as int <= u <= '9' as int then u - '0' as int
    else if u == '*' as int then 0xA
    else if u == '#' as int then 0xB
    else if u == 'a' as int then 0xC
    else if u == 'b' as int then 0xE
    else 0
  }

  /** The characters the semi-octet table names. */
  predicate IsDialChar(c: char)
  {
    '0' <= c <= '9' || c == '*' || c == '#' || c == 'a' || c == 'b'
  }

  /** The character a semi-octet stands for; the inverse of `DigitNibble` on dial characters. */
  function NibbleChar(n: nat): Option<char>
  {
    if n <= 9 then Some(('0' as int + n) as char)
    else if n == 0xA then Some('*')
    else if n == 0xB then Some('#')
    else if n == 0xC then Some('a')
    else if n == 0xE then Some('b')
    else None
  }

  lemma NibbleCharOfDigit(c: char)
    requires IsDialChar(c)
    ensures NibbleChar(DigitNibble(c as int)) == Some(c)
  {}

  /** Octet j of the semi-octet form of a number's UTF-16 units: unit 2j in the low nibble, unit
      2j + 1 (or the filler F) in the high one. */
  function BcdOctet(units: seq<nat>, j: nat): byte
    requires 2 * j < |units|
  {
    DigitNibble(units[2 * j]) + 16 * (if 2 * j + 1 < |units| then DigitNibble(units[2 * j + 1]) else 0xF)
  }

  function Bcd(units: seq<nat>): (r: seq<byte>)
    ensures |r| == (|units| + 1) / 2
  {
    seq((|units| + 1) / 2, j requires 0 <= j < (|units| + 1) / 2 => BcdOctet(units, j))
  }

  /** Semi-octet i of a sequence of octets, low nibble first. */
  function SemiOctet(bytes: seq<byte>, i: nat): nat
    requires i / 2 < |bytes|
  {
    if i % 2 == 0 then bytes[i / 2] % 16 else bytes[i / 2] / 16
  }

  lemma BcdSemiOctet(units: seq<nat>, i: nat)
    requires i < |units|
    ensures SemiOctet(Bcd(units), i) == DigitNibble(units[i])
  {
    var j := i / 2;
    assert Bcd(units)[j] == BcdOctet(units, j);
    if i % 2 == 0 {
      assert i == 2 * j;
    } else {
      assert i == 2 * j + 1;
    }
  }

  /** The semi-octets of `Bcd(units)` are the units' nibbles in order, and an odd count is
      padded with F. */
  lemma BcdSemiOctets(units: seq<nat>)
    ensures forall i :: 0 <= i < |units| ==> SemiOctet(Bcd(units), i) == DigitNibble(units[i])
    ensures |units| % 2 == 1 ==> SemiOctet(Bcd(units), |units|) == 0xF
  {
    forall i | 0 <= i < |units|
      ensures SemiOctet(Bcd(units), i) == DigitNibble(units[i])
    {
      BcdSemiOctet(units, i);
    }
    if |units| % 2 == 1 {
      var j := |units| / 2;
      assert Bcd(units)[j] == BcdOctet(units, j);
    }
  }

  /** Reads n dial characters back from semi-octets; None when one is not in the table. */
  function DecodeBcd(bytes: seq<byte>, n: nat): Option<string>
    requires (n + 1) / 2 <= |bytes|
  {
    if n == 0 then Some([])
    else match (DecodeBcd(bytes, n - 1), NibbleChar(SemiOctet(bytes, n - 1)))
      case (Some(prefix), Some(c)) => Some(prefix + [c])
      case _ => None
  }

  /** A number made of dial characters, each a single UTF-16 unit, reads back from its
      semi-octet form. */
  lemma {:induction false} BcdRoundTrip(digits: string, n: nat)
    requires n <= |digits|
    requires forall i :: 0 <= i < |digits| ==> IsDialChar(digits[i])
    ensures |Utf16Units(digits)| == |digits|
    ensures DecodeBcd(Bcd(Utf16Units(digits)), n) == Some(digits[..n])
  {
    Utf16UnitsBmp(digits);
    DecodeDialUnits(Utf16Units(digits), digits, n);
  }

  /** The units are the dial characters themselves, one each. */
  predicate DialUnits(units: seq<nat>, digits: string)
  {
    |units| == |digits| && forall i :: 0 <= i < |digits| ==> IsDialChar(digits[i]) && units[i] == digits[i] as int
  }

  /** The induction of `BcdRoundTrip`, over units that are the dial characters themselves. */
  lemma {:induction false} DecodeDialUnits(units: seq<nat>, digits: string, n: nat)
    requires n <= |digits| && DialUnits(units, digits)
    ensures DecodeBcd(Bcd(units), n) == Some(digits[..n])
  {
    if n > 0 {
      var c := digits[n - 1];
      assert IsDialChar(c) && units[n - 1] == c as int;
      DecodeDialUnits(units, digits, n - 1);
      var d := SemiOctet(Bcd(units), n - 1);
      assert d == DigitNibble(c as int) by { BcdSemiOctet(units, n - 1); }
      assert NibbleChar(d) == Some(c) by { NibbleCharOfDigit(c); }
      DecodeBcdStep(Bcd(units), n, digits[..n - 1], c);
      PrefixSnoc(digits, n - 1);
    }
  }

  /** One more semi-octet that reads as c extends what the earlier ones read by c. */
  lemma DecodeBcdStep(bytes: seq<byte>, n: nat, prefix: string, c: char)
    requires 0 < n && (n + 1) / 2 <= |bytes|
    requires DecodeBcd(bytes, n - 1) == Some(prefix) && NibbleChar(SemiOctet(bytes, n - 1)) == Some(c)
    ensures DecodeBcd(bytes, n) == Some(prefix + [c])
  {
  }

  /** `SMSSubmit.WriteBcdNumber`: a nibble accumulator over the UTF-16 units of the number,
      emitted every second unit. */
  method WriteBcdNumber(stream: seq<byte>, phoneNumber: string) returns (r: seq<byte>)
    ensures r == stream + Bcd(Utf16Units(phoneNumber))
  {
    // `phoneNumber[i]` and `phoneNumber.Length` read UTF-16 units
    var units := Utf16Units(phoneNumber);
    var bcd := 0x00;
    var n := 0;
    r := stream;
    var i := 0;
    while i < |units|
      invariant 0 <= i <= |units| && n == i % 2
      invariant |r| == |stream| + i / 2 && r[..|stream|] == stream
      invariant forall j :: 0 <= j < i / 2 ==> r[|stream| + j] == BcdOctet(units, j)
      invariant n == 0 ==> bcd == 0
      invariant n == 1 ==> bcd == DigitNibble(units[i - 1])
    {
      // `bcd |= nibble << 4`: the accumulator holds at most a low nibble here
      bcd := bcd + 16 * DigitNibble(units[i]);
      n := n + 1;
      if n == 2 {
        ghost var j := i / 2;
        assert i == 2 * j + 1;
        assert ByteOf(bcd) == BcdOctet(units, j);
        r := r + [ByteOf(bcd)];
        n := 0;
        bcd := 0x00;
      } else {
        bcd := bcd / 16;
        assert bcd == DigitNibble(units[i]);
      }
      i := i + 1;
    }
    if n == 1 {
      bcd := bcd + 0xF0;
      r := r + [ByteOf(bcd)];
    }
    assert r == stream + Bcd(units) by {
      assert |r| == |stream| + |Bcd(units)|;
      forall j | 0 <= j < |Bcd(units)|
        ensures r[|stream| + j] == Bcd(units)[j]
      {}
    }
  }

  /** The address field of `SMSSubmit.WritePhoneNumber`: the digit count in UTF-16 units, the type
      of number (0x91 after stripping a leading '+', otherwise 0x81) and the semi-octets of the
      units. A null or empty number is rejected; null is modelled as the empty string, since both
      raise the same exception. */
  function AddressField(phoneNumber: string): Result<seq<byte>>
  {
    if phoneNumber == [] then Err(PhoneNumberNotSet)
    else
      var international := phoneNumber[0] == '+';
      var digits := if international then phoneNumber[1..] else phoneNumber;
      var units := Utf16Units(digits);
      Ok([ByteOf(|units|), if international then NumberFormatInternational else NumberFormatNational] + Bcd(units))
  }

  /** The address field opens with the digit count and the type of number, and the dial
      characters after the optional '+' read back from the semi-octets that follow. */
  lemma AddressFieldLayout(phoneNumber: string)
    ensures AddressField(phoneNumber).Err? <==> phoneNumber == []
    ensures AddressField(phoneNumber).Ok? ==>
      var international := phoneNumber[0] == '+';
      var digits := if international then phoneNumber[1..] else phoneNumber;
      var a := AddressField(phoneNumber).value;
      |a| == 2 + (Utf16Length(digits) + 1) / 2 &&
      a[0] == ByteOf(Utf16Length(digits)) &&
      (a[1] == 0x91 <==> international) && (a[1] == 0x81 <==> !international) &&
      ((forall i :: 0 <= i < |digits| ==> IsDialChar(digits[i])) ==>
         a[0] == ByteOf(|digits|) && DecodeBcd(a[2..], |digits|) == Some(digits))
  {
    if phoneNumber != [] {
      var international := phoneNumber[0] == '+';
      var digits := if international then phoneNumber[1..] else phoneNumber;
      var a := AddressField(phoneNumber).value;
      assert a[2..] == Bcd(Utf16Units(digits));
      if forall i :: 0 <= i < |digits| ==> IsDialChar(digits[i]) {
        BcdRoundTrip(digits, |digits|);
        assert digits[..|digits|] == digits;
      }
    }
  }

  /** A character above U+FFFF counts as two units, each a surrogate that no case of the switch
      matches: "1" followed by U+1F600 is three semi-octets 1, 0, 0 and the filler. */
  lemma AddressFieldOfSurrogatePair()
    ensures AddressField("1\U{1F600}") == Ok([3, 0x81, 0x01, 0xF0])
  {
    var s := "1\U{1F600}";
    assert s[0] == '1' && s[1..] == "\U{1F600}" && "\U{1F600}"[1..] == [];
    var units := Utf16Units(s);
    assert Utf16UnitsOf('\U{1F600}') == [0xD83D, 0xDE00];
    assert units == [0x31] + [0xD83D, 0xDE00] + [];
    assert BcdOctet(units, 0) == 0x01 && BcdOctet(units, 1) == 0xF0;
    assert Bcd(units) == [0x01, 0xF0];
    assert AddressField(s) == Ok([ByteOf(|units|), NumberFormatNational] + Bcd(units));
    assert [ByteOf(|units|), NumberFormatNational] + Bcd(units) == [3, 0x81, 0x01, 0xF0];
  }

  /** `SMSSubmit.WritePhoneNumber`. */
  method WritePhoneNumber(stream: seq<byte>, phoneNumber: string) returns (r: Result<seq<byte>>)
    ensures r.Err? <==> phoneNumber == []
    ensures r.Err? ==> r.error == PhoneNumberNotSet
    ensures r.Ok? ==> r.value == stream + AddressField(phoneNumber).value
  {
    if phoneNumber == [] {
      return Err(PhoneNumberNotSet);
    }
    var isInternational := phoneNumber[0] == '+';
    var numberFormat := NumberFormatNational;
    var digits := phoneNumber;
    if isInternational {
      digits := phoneNumber[1..];
      numberFormat := NumberFormatInternational;
    }
    var numberLength := ByteOf(Utf16Length(digits));
    var out := stream + [numberLength];
    out := out + [numberFormat];
    out := WriteBcdNumber(out, digits);
    AppendAssoc(stream, [numberLength, numberFormat], Bcd(Utf16Units(digits)));
    assert stream + [numberLength] + [numberFormat] == stream + [numberLength, numberFormat];
    r := Ok(out);
  }
}
