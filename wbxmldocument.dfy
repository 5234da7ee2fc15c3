/**
 * The WBXML building blocks of SharpSMS.Wbxml.WBXMLDocument (WAP-192-WBXML section 5):
 * tag tokens carrying the attribute and content flags, inline strings, and dates as
 * opaque data in packed BCD.
 */
module WbxmlDocument {
  import opened Wrappers
  import opened Arith
  import opened Text
  import opened Wsp

  const Nul: byte := 0x00
  const Version12: byte := 0x02
  const CharsetUtf8: byte := 0x6A
  const TagTokenEnd: byte := 0x01
  const InlineStringFollows: byte := 0x03
  const OpaqueDataFollows: byte := 0xC3

  // ---------------------------------------------------------------------
  // Tag tokens

  /** `WBXMLDocument.SetTagTokenIndications`: `token |= 0x80` with attributes, `token |= 0x40` with
      content. Each OR is written as adding the bit when it is clear. */
  function SetTagTokenIndications(token: byte, hasAttributes: bool, hasContent: bool): (r: byte)
    ensures r % 64 == token % 64
    ensures r >= 128 <==> hasAttributes || token >= 128
    ensures (r / 64) % 2 == 1 <==> hasContent || (token / 64) % 2 == 1
  {
    var withAttributes := if hasAttributes && token < 128 then token + 128 else token;
    if hasContent && (withAttributes / 64) % 2 == 0 then withAttributes + 64 else withAttributes
  }

  /** Setting the flags twice is setting them once. */
  lemma SetTagTokenIndicationsIdempotent(token: byte, hasAttributes: bool, hasContent: bool)
    ensures var once := SetTagTokenIndications(token, hasAttributes, hasContent);
            SetTagTokenIndications(once, hasAttributes, hasContent) == once
  {
    var once := SetTagTokenIndications(token, hasAttributes, hasContent);
    var twice := SetTagTokenIndications(once, hasAttributes, hasContent);
    assert twice % 64 == once % 64;
    assert twice >= 128 <==> once >= 128;
    assert (twice / 64) % 2 == (once / 64) % 2;
  }

  // ---------------------------------------------------------------------
  // Inline strings

  /** An inline string: STR_I, the UTF-8 octets of the text, and the NUL that ends it. */
  function InlineString(text: string): (r: seq<byte>)
    ensures |r| == |Utf8(text)| + 2 && r[0] == InlineStringFollows && r[|r| - 1] == Nul
  {
    [InlineStringFollows] + Utf8(text) + [Nul]
  }

  /** Reads an inline string: the octets between STR_I and the first NUL, and the octets consumed. */
  function ParseInlineString(s: seq<byte>): Option<(seq<byte>, nat)>
  {
    if s == [] || s[0] != InlineStringFollows then None
    else match NulFrom(s, 1)
      case None => None
      case Some(k) => Some((s[1..k], k + 1))
  }

  /** A text without NUL is read back from its inline string, whatever follows it. */
  lemma InlineStringRoundTrip(text: string, rest: seq<byte>)
    requires NoNul(text)
    ensures ParseInlineString(InlineString(text) + rest) == Some((Utf8(text), |InlineString(text)|))
  {
    var u := Utf8(text);
    NulAfter([InlineStringFollows], u, rest);
    var s := InlineString(text) + rest;
    assert s == [InlineStringFollows] + u + [0] + rest;
    assert s[1..1 + |u|] == u;
  }

  /** `WBXMLDocument.WriteInlineString`. */
  method WriteInlineString(stream: seq<byte>, text: string) returns (r: seq<byte>)
    ensures r == stream + InlineString(text)
  {
    r := stream + [InlineStringFollows];
    var bytes := Utf8(text);
    r := r + bytes;
    r := r + [Nul];
  }

  // ---------------------------------------------------------------------
  // Dates

  /** The components of a .NET `DateTime` that `WriteDate` reads. */
  datatype DateTime = DateTime(year: int, month: int, day: int, hour: int, minute: int, second: int)
  {
    predicate Valid()
    {
      1 <= year <= 9999 && 1 <= month <= 12 && 1 <= day <= 31 &&
      0 <= hour < 24 && 0 <= minute < 60 && 0 <= second < 60
    }
  }

  /** `DateTime.MinValue`, which the documents use for "not set". */
  const MinValue := DateTime(1, 1, 1, 0, 0, 0)

  /** `Convert.ToByte(Convert.ToString(v), 16)` below 100: the decimal digits read as hexadecimal,
      which is packed BCD, so both nibbles are decimal digits that spell v. */
  function HexOfDecimal(v: nat): (b: byte)
    requires v < 100
    ensures v == 0 ==> b == 0
  {
    Tens(v) * 16 + (v - Tens(v) * 10)
  }

  /** The tens digit of v, counted down so that it unfolds only on demand. */
  function Tens(v: nat): (t: nat)
    ensures t * 10 <= v < t * 10 + 10
  {
    if v < 10 then 0 else 1 + Tens(v - 10)
  }

  lemma HexOfDecimalDigits(v: nat)
    requires v < 100
    ensures BcdValue(HexOfDecimal(v)) == v
  {
    var b, t := HexOfDecimal(v), Tens(v);
    assert b == t * 16 + (v - t * 10);
    assert b / 16 == t && b % 16 == v - t * 10;
  }

  /** The number a packed-BCD octet spells. */
  function BcdValue(b: byte): nat
  {
    (b / 16) * 10 + b % 16
  }

  /** The seven values `WriteDate` can write: century, year of the century, month, day, hour,
      minute and second. */
  function DateFields(date: DateTime): (f: seq<nat>)
    requires date.Valid()
    ensures |f| == 7 && forall i :: 0 <= i < 7 ==> f[i] < 100
  {
    [date.year / 100, date.year % 100, date.month, date.day, date.hour, date.minute, date.second]
  }

  /** The number of octets written: up to the last non-zero of hour, minute and second, at least four. */
  function DateLength(date: DateTime): (n: nat)
  {
    if date.second > 0 then 7 else if date.minute > 0 then 6 else if date.hour > 0 then 5 else 4
  }

  /** The BCD octets of all seven fields. */
  function DateOctets(date: DateTime): (o: seq<byte>)
    requires date.Valid()
    ensures |o| == 7
  {
    var f := DateFields(date);
    [HexOfDecimal(f[0]), HexOfDecimal(f[1]), HexOfDecimal(f[2]), HexOfDecimal(f[3]),
     HexOfDecimal(f[4]), HexOfDecimal(f[5]), HexOfDecimal(f[6])]
  }

  /** The opaque date: OPAQUE, the length, and the BCD octets of the first `DateLength` fields. */
  function OpaqueDate(date: DateTime): (r: seq<byte>)
    requires date.Valid()
  {
    [OpaqueDataFollows, DateLength(date)] + DateOctets(date)[..DateLength(date)]
  }

  /** Reads a date back from its BCD octets; the fields past the end are zero. */
  function ParseDate(o: seq<byte>): Option<DateTime>
  {
    if |o| < 4 || |o| > 7 then None
    else
      Some(DateTime(
        BcdValue(o[0]) * 100 + BcdValue(o[1]), BcdValue(o[2]), BcdValue(o[3]),
        if |o| > 4 then BcdValue(o[4]) else 0,
        if |o| > 5 then BcdValue(o[5]) else 0,
        if |o| > 6 then BcdValue(o[6]) else 0))
  }

  /** An opaque date is OPAQUE, a length from 4 to 7 and that many octets; the length reaches
      past each time field that is non-zero. */
  lemma OpaqueDateLayout(date: DateTime)
    requires date.Valid()
    ensures var r := OpaqueDate(date);
            r[0] == 0xC3 && 4 <= r[1] <= 7 && |r| == 2 + r[1] &&
            (r[1] == 7 <==> date.second > 0) &&
            (r[1] >= 6 <==> date.second > 0 || date.minute > 0) &&
            (r[1] >= 5 <==> date.second > 0 || date.minute > 0 || date.hour > 0)
  {
    var n := DateLength(date);
    assert OpaqueDate(date)[..2] == [OpaqueDataFollows, n];
  }

  /** The date reads back from the octets of its opaque form: every field the length leaves out
      is zero. */
  lemma OpaqueDateRoundTrip(date: DateTime)
    requires date.Valid()
    ensures ParseDate(OpaqueDate(date)[2..]) == Some(date)
  {
    OpaqueDateOctets(date);
    var p, o := OpaqueDate(date)[2..], DateOctets(date);
    assert BcdValue(p[0]) * 100 + BcdValue(p[1]) == date.year by {
      HexOfDecimalDigits(date.year / 100);
      HexOfDecimalDigits(date.year % 100);
    }
    assert BcdValue(p[2]) == date.month by { HexOfDecimalDigits(date.month); }
    assert BcdValue(p[3]) == date.day by { HexOfDecimalDigits(date.day); }
    assert |p| > 4 ==> BcdValue(p[4]) == date.hour by { HexOfDecimalDigits(date.hour); }
    assert |p| > 5 ==> BcdValue(p[5]) == date.minute by { HexOfDecimalDigits(date.minute); }
    assert |p| > 6 ==> BcdValue(p[6]) == date.second by { HexOfDecimalDigits(date.second); }
    var d := ParseDate(p).value;
    assert d.year == date.year && d.month == date.month && d.day == date.day;
    assert d.hour == date.hour && d.minute == date.minute && d.second == date.second;
  }

  /** The octets after OPAQUE and the length are the first `DateLength` BCD octets. */
  lemma OpaqueDateOctets(date: DateTime)
    requires date.Valid()
    ensures var p, o := OpaqueDate(date)[2..], DateOctets(date);
            |p| == DateLength(date) &&
            p[0] == o[0] && p[1] == o[1] && p[2] == o[2] && p[3] == o[3] &&
            (|p| > 4 ==> p[4] == o[4]) && (|p| > 5 ==> p[5] == o[5]) && (|p| > 6 ==> p[6] == o[6])
  {
    var o := DateOctets(date);
    assert OpaqueDate(date)[2..] == o[..DateLength(date)];
  }

  /** Two seven-octet sequences that agree at every index are equal. */
  lemma SameSevenOctets(c: seq<byte>, o: seq<byte>)
    requires |c| == 7 && |o| == 7
    requires c[0] == o[0] && c[1] == o[1] && c[2] == o[2] && c[3] == o[3]
    requires c[4] == o[4] && c[5] == o[5] && c[6] == o[6]
    ensures c == o
  {
  }

  /** `WBXMLDocument.WriteDate`: a zeroed seven-octet buffer receives the four date fields and each
      time field that is non-zero, the length growing to the last one set; the buffer's first
      `dateLength` octets follow OPAQUE and the length. */
  method WriteDate(stream: seq<byte>, date: DateTime) returns (r: seq<byte>)
    requires date.Valid()
    ensures r == stream + OpaqueDate(date)
  {
    ghost var o := DateOctets(date);
    var buffer := new byte[7][0, 0, 0, 0, 0, 0, 0];
    buffer[0] := HexOfDecimal(date.year / 100);
    buffer[1] := HexOfDecimal(date.year % 100);
    buffer[2] := HexOfDecimal(date.month);
    buffer[3] := HexOfDecimal(date.day);
    var dateLength := 4;
    if date.hour > 0 {
      buffer[4] := HexOfDecimal(date.hour);
      dateLength := 5;
    }
    assert buffer[4] == o[4];
    if date.minute > 0 {
      buffer[5] := HexOfDecimal(date.minute);
      dateLength := 6;
    }
    assert buffer[5] == o[5];
    if date.second > 0 {
      buffer[6] := HexOfDecimal(date.second);
      dateLength := 7;
    }
    assert buffer[6] == o[6];
    assert buffer[0] == o[0] && buffer[1] == o[1] && buffer[2] == o[2] && buffer[3] == o[3];
    var contents := buffer[..];
    assert contents[0] == o[0] && contents[1] == o[1] && contents[2] == o[2] && contents[3] == o[3];
    assert contents[4] == o[4] && contents[5] == o[5] && contents[6] == o[6];
    SameSevenOctets(contents, o);
    assert dateLength == DateLength(date);
    var octets := contents[..dateLength];
    assert octets == o[..DateLength(date)];
    r := stream + [OpaqueDataFollows, dateLength] + octets;
  }
}
