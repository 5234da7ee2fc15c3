/**
 * WSP value encodings (WAP-230-WSP sections 8.1.2 and 8.4.2) and the push
 * header writers of SharpSMS.Wap.Wsp. Every writer appends to a stream; here a
 * stream is a byte sequence passed in and returned extended. Each encoding is
 * given as a function, together with a parser that reads it back.
 */
module Wsp {
  import opened Wrappers
  import opened Arith
  import opened Radix
  import opened Text

  const TransactionIdConnectionless: byte := 0x01
  const PduTypePush: byte := 0x06
  const HeaderPushFlag: byte := 0x34
  const HeaderContentUri: byte := 0x30
  const HeaderInitiatorUri: byte := 0x31
  const HeaderApplicationId: byte := 0x2F
  const HeaderSec: byte := 0x11
  const HeaderMac: byte := 0x12
  /** The Quote octet that precedes a text-string starting with a high character. */
  const Quote: byte := 0x7F
  /** The Length-quote octet of a value-length. */
  const LengthQuote: byte := 0x1F

  /** `Wsp.SecurityMethod`; `NoSecurity` is the enumeration's `None`. */
  datatype SecurityMethod = NoSecurity | NETWPIN | USERPIN | USERNETWPIN | USERPINMAC

  // ---------------------------------------------------------------------
  // Short-integer (section 8.4.2.1): one octet with the top bit set.

  /** `(byte)(v | 0x80)`. */
  function ShortInteger(v: byte): (r: byte)
    ensures r >= 0x80 && r % 128 == v % 128
  {
    if v >= 0x80 then v else v + 0x80
  }

  // ---------------------------------------------------------------------
  // Uintvar (section 8.1.2): base-128 groups, most significant first,
  // every octet but the last with the continuation bit set.

  /** The 7-bit groups of a uintvar; zero still takes one group. */
  function UintvarGroups(x: nat): (g: seq<nat>)
    ensures |g| >= 1
  {
    if x == 0 then [0] else Digits(x, 128)
  }

  function Uintvar(x: nat): (r: seq<byte>)
    ensures |r| == |UintvarGroups(x)|
  {
    var g := UintvarGroups(x);
    seq(|g|, j requires 0 <= j < |g| => ByteOf(g[j] + (if j < |g| - 1 then 128 else 0)))
  }

  lemma UintvarValue(x: nat)
    ensures Value(UintvarGroups(x), 128) == x
  {
    if x == 0 {
      assert Value([0], 128) == Scale(Value([], 128), 128) + 0;
    } else {
      ValueOfDigits(x, 128);
    }
  }

  lemma UintvarGroupsBelow(x: nat)
    ensures forall j :: 0 <= j < |UintvarGroups(x)| ==> UintvarGroups(x)[j] < 128
  {
    if x > 0 { DigitsBelowBase(x, 128); }
  }

  /** Octet j of a uintvar is group j plus 128 for all but the last octet. */
  lemma UintvarOctet(x: nat, j: nat)
    requires j < |Uintvar(x)|
    ensures UintvarGroups(x)[j] < 128
    ensures Uintvar(x)[j] == UintvarGroups(x)[j] + (if j < |Uintvar(x)| - 1 then 128 else 0)
  {
    UintvarGroupsBelow(x);
  }

  /** Reads a uintvar: the value and the number of octets it took, None when the input ends first. */
  function ParseUintvar(s: seq<byte>): Option<(nat, nat)>
  {
    UintvarFrom(s, 0)
  }

  function UintvarFrom(s: seq<byte>, acc: nat): Option<(nat, nat)>
    decreases |s|
  {
    if s == [] then None
    else
      var v := acc * 128 + s[0] % 128;
      if s[0] < 128 then Some((v, 1))
      else match UintvarFrom(s[1..], v)
        case None => None
        case Some(p) => Some((p.0, p.1 + 1))
  }

  /** One continuation octet: the decoder folds it into the accumulator and reads on. */
  lemma UintvarFromContinue(s: seq<byte>, acc: nat, v: nat, n: nat)
    requires s != [] && s[0] >= 128
    requires UintvarFrom(s[1..], acc * 128 + s[0] % 128) == Some((v, n))
    ensures UintvarFrom(s, acc) == Some((v, n + 1))
  {}

  lemma ValuePrefix(g: seq<nat>, j: nat)
    requires j < |g|
    ensures Value(g[..j + 1], 128) == Value(g[..j], 128) * 128 + g[j]
  {
    assert g[..j + 1][..j] == g[..j];
  }

  lemma UintvarFromLast(x: nat, rest: seq<byte>)
    ensures UintvarFrom(Uintvar(x)[|Uintvar(x)| - 1..] + rest, Value(UintvarGroups(x)[..|Uintvar(x)| - 1], 128)) == Some((x, 1))
  {
    var g, u := UintvarGroups(x), Uintvar(x);
    var j := |u| - 1;
    var s := u[j..] + rest;
    ValuePrefix(g, j);
    assert g[..j + 1] == g;
    UintvarOctet(x, j);
    UintvarValue(x);
    assert s[0] == u[j];
  }

  lemma SuffixCons(u: seq<byte>, j: nat, rest: seq<byte>)
    requires j < |u|
    ensures (u[j..] + rest)[0] == u[j] && (u[j..] + rest)[1..] == u[j + 1..] + rest
  {}

  lemma UintvarFromStep(x: nat, j: nat, rest: seq<byte>)
    requires j < |Uintvar(x)| - 1
    requires UintvarFrom(Uintvar(x)[j + 1..] + rest, Value(UintvarGroups(x)[..j + 1], 128)) == Some((x, |Uintvar(x)| - j - 1))
    ensures UintvarFrom(Uintvar(x)[j..] + rest, Value(UintvarGroups(x)[..j], 128)) == Some((x, |Uintvar(x)| - j))
  {
    var g, u := UintvarGroups(x), Uintvar(x);
    var s := u[j..] + rest;
    UintvarOctet(x, j);
    SuffixCons(u, j, rest);
    assert s[0] >= 128 && s[0] % 128 == g[j];
    ValuePrefix(g, j);
    UintvarFromContinue(s, Value(g[..j], 128), x, |u| - j - 1);
  }

  lemma {:induction false} UintvarFromSuffix(x: nat, j: nat, rest: seq<byte>)
    requires j < |Uintvar(x)|
    ensures UintvarFrom(Uintvar(x)[j..] + rest, Value(UintvarGroups(x)[..j], 128)) == Some((x, |Uintvar(x)| - j))
    decreases |Uintvar(x)| - j
  {
    if j < |Uintvar(x)| - 1 {
      UintvarFromSuffix(x, j + 1, rest);
      UintvarFromStep(x, j, rest);
    } else {
      UintvarFromLast(x, rest);
    }
  }

  /** Decoding recovers the value and consumes exactly the encoding. */
  lemma UintvarRoundTrip(x: nat, rest: seq<byte>)
    ensures ParseUintvar(Uintvar(x) + rest) == Some((x, |Uintvar(x)|))
  {
    UintvarFromSuffix(x, 0, rest);
    assert Uintvar(x)[0..] == Uintvar(x);
    assert UintvarGroups(x)[..0] == [];
  }

  /** Continuation flags: every octet but the last has bit 7 set, the last has it clear, and
      there is no leading 0x80 octet. */
  lemma UintvarFlags(x: nat)
    ensures forall j :: 0 <= j < |Uintvar(x)| - 1 ==> Uintvar(x)[j] >= 0x80
    ensures Uintvar(x)[|Uintvar(x)| - 1] < 0x80
    ensures |Uintvar(x)| > 1 ==> Uintvar(x)[0] != 0x80
  {
    var n := |Uintvar(x)|;
    forall j | 0 <= j < n - 1
      ensures Uintvar(x)[j] >= 0x80
    {
      UintvarOctet(x, j);
    }
    UintvarOctet(x, n - 1);
    if n > 1 {
      DigitsLeading(x, 128);
      UintvarOctet(x, 0);
    }
  }

  /** Minimality: the octet count is the least n >= 1 with x >> 7n == 0. */
  lemma UintvarMinimal(x: nat)
    ensures Shift(x, 128, |Uintvar(x)|) == 0
    ensures |Uintvar(x)| > 1 ==> Shift(x, 128, |Uintvar(x)| - 1) > 0
  {
    if x > 0 {
      ShiftZero(x, 128, |Uintvar(x)|);
      ShiftZero(x, 128, |Uintvar(x)| - 1);
    }
  }

  lemma UintvarExamples()
    ensures Uintvar(0) == [0x00]
    ensures Uintvar(0x7F) == [0x7F]
    ensures Uintvar(128) == [0x81, 0x00]
  {
    assert Digits(0x7F, 128) == [0x7F];
    assert Digits(128, 128) == [1, 0] by {
      assert Digits(1, 128) == [1];
    }
  }

  /** The counting loops stop at the digit count. */
  lemma CountIsDigits(x: nat, b: nat, n: nat)
    requires IsBase(b)
    requires Shift(x, b, n) == 0 && (n == 0 || Shift(x, b, n - 1) > 0)
    ensures |Digits(x, b)| == n
  {
    ShiftZero(x, b, n);
    if n > 0 { ShiftZero(x, b, n - 1); }
  }

  /** `Wsp.WriteUintvar`: count the groups, then emit them from the most significant. */
  method WriteUintvar(stream: seq<byte>, number: nat) returns (r: seq<byte>)
    ensures r == stream + Uintvar(number)
  {
    var nOctets := 1;
    while Shift(number, 128, nOctets) > 0
      invariant nOctets >= 1 && (nOctets == 1 || Shift(number, 128, nOctets - 1) > 0)
      decreases Shift(number, 128, nOctets)
    {
      ShiftStep(number, 128, nOctets);
      nOctets := nOctets + 1;
    }
    if number > 0 {
      CountIsDigits(number, 128, nOctets);
    }
    r := stream;
    var i := nOctets;
    while i > 0
      invariant 0 <= i <= nOctets == |Uintvar(number)|
      invariant r == stream + Uintvar(number)[..nOctets - i]
    {
      var octet := Shift(number, 128, i - 1) % 128;
      var byteValue := if i > 1 then octet + 0x80 else octet;
      UintvarOctetFromShift(number, i);
      assert Uintvar(number)[..nOctets - i + 1] == Uintvar(number)[..nOctets - i] + [byteValue];
      r := r + [byteValue];
      i := i - 1;
    }
    assert Uintvar(number)[..nOctets] == Uintvar(number);
  }

  /** The octet the writing loop emits when i groups remain. */
  lemma UintvarOctetFromShift(x: nat, i: nat)
    requires 1 <= i <= |Uintvar(x)|
    ensures Uintvar(x)[|Uintvar(x)| - i] == Shift(x, 128, i - 1) % 128 + (if i > 1 then 0x80 else 0)
  {
    var n := |Uintvar(x)|;
    UintvarOctet(x, n - i);
    if x > 0 {
      DigitAt(x, 128, n - i);
    } else {
      ShiftZero(0, 128, i - 1);
    }
  }

  // ---------------------------------------------------------------------
  // Long-integer (section 8.4.2.1): a short length, then that many octets, big-endian.

  function OctetsOf(d: seq<nat>): (r: seq<byte>)
    ensures |r| == |d|
  {
    seq(|d|, j requires 0 <= j < |d| => ByteOf(d[j]))
  }

  /** The big-endian number an octet string denotes. */
  function OctetsValue(s: seq<byte>): nat
  {
    if s == [] then 0 else OctetsValue(s[..|s| - 1]) * 256 + s[|s| - 1]
  }

  lemma {:induction false} OctetsOfValue(d: seq<nat>)
    requires forall j :: 0 <= j < |d| ==> d[j] < 256
    ensures OctetsValue(OctetsOf(d)) == Value(d, 256)
  {
    if d != [] {
      var o := OctetsOf(d);
      var d' := d[..|d| - 1];
      assert o[..|o| - 1] == OctetsOf(d');
      OctetsOfValue(d');
    }
  }

  function LongInteger(x: nat): seq<byte>
  {
    var d := Digits(x, 256);
    [ByteOf(|d|)] + OctetsOf(d)
  }

  /** Reads a long-integer; None when the length octet exceeds 30 or the input is short. */
  function ParseLongInteger(s: seq<byte>): Option<(nat, nat)>
  {
    if s == [] then None
    else
      var n := s[0];
      if n > 30 || |s| < 1 + n then None else Some((OctetsValue(s[1..1 + n]), 1 + n))
  }

  /** The largest value the library can write, 2^56 - 1: the counting loop of
      `WriteLongInteger` stops only when `number >> 56 == 0`. */
  const LongIntegerLimit: nat := 0x100_0000_0000_0000

  /** A value below 2^56 has at most seven octets. */
  lemma LongIntegerLength(x: nat)
    requires x < LongIntegerLimit
    ensures |Digits(x, 256)| <= 7
  {
    assert LongIntegerLimit == Power(256, 7);
    ShiftBelowPower(x, 256, 7);
    ShiftZero(x, 256, 7);
  }

  /** A length octet up to 30 and that many octets read back as their big-endian value. */
  lemma ParseLongIntegerOf(o: seq<byte>, rest: seq<byte>)
    requires |o| <= 30
    ensures ParseLongInteger([|o|] + o + rest) == Some((OctetsValue(o), 1 + |o|))
  {
    var s := [|o|] + o + rest;
    assert s[1..1 + |o|] == o;
  }

  lemma LongIntegerOctetsValue(x: nat)
    ensures OctetsValue(OctetsOf(Digits(x, 256))) == x
  {
    DigitsBelowBase(x, 256);
    OctetsOfValue(Digits(x, 256));
    ValueOfDigits(x, 256);
  }

  lemma LongIntegerRoundTrip(x: nat, rest: seq<byte>)
    requires x < LongIntegerLimit
    ensures ParseLongInteger(LongInteger(x) + rest) == Some((x, |LongInteger(x)|))
  {
    var d := Digits(x, 256);
    LongIntegerLength(x);
    assert LongInteger(x) == [|d|] + OctetsOf(d);
    ParseLongIntegerOf(OctetsOf(d), rest);
    LongIntegerOctetsValue(x);
  }

  /** The length octet is the minimal octet count: zero encodes as [0x00], and no value octet is a leading zero. */
  lemma LongIntegerMinimal(x: nat)
    requires x < LongIntegerLimit
    ensures LongInteger(x)[0] == |LongInteger(x)| - 1
    ensures x == 0 <==> LongInteger(x) == [0x00]
    ensures |LongInteger(x)| > 1 ==> LongInteger(x)[1] != 0
  {
    DigitsLeading(x, 256);
    DigitsBelowBase(x, 256);
    LongIntegerLength(x);
  }

  /** The octet the writing loop emits when i octets remain. */
  lemma LongOctetFromShift(x: nat, i: nat)
    requires 1 <= i <= |Digits(x, 256)|
    ensures LongInteger(x)[1 + |Digits(x, 256)| - i] == ByteOf(Shift(x, 256, i - 1))
  {
    var n := |Digits(x, 256)|;
    DigitAt(x, 256, n - i);
  }

  /** `Wsp.WriteLongInteger`, for the values on which its counting loop terminates. */
  method WriteLongInteger(stream: seq<byte>, number: nat) returns (r: seq<byte>)
    requires number < LongIntegerLimit
    ensures r == stream + LongInteger(number)
  {
    var nOctets := 0;
    while Shift(number, 256, nOctets) > 0
      invariant nOctets == 0 || Shift(number, 256, nOctets - 1) > 0
      decreases Shift(number, 256, nOctets)
    {
      ShiftStep(number, 256, nOctets);
      nOctets := nOctets + 1;
    }
    CountIsDigits(number, 256, nOctets);
    LongIntegerLength(number);
    var out := LongInteger(number);
    r := stream + [ByteOf(nOctets)];
    assert out[..1] == [ByteOf(nOctets)];
    var i := nOctets;
    while i > 0
      invariant 0 <= i <= nOctets == |Digits(number, 256)|
      invariant r == stream + out[..1 + nOctets - i]
    {
      var octet := ByteOf(Shift(number, 256, i - 1));
      LongOctetFromShift(number, i);
      assert out[..1 + nOctets - i + 1] == out[..1 + nOctets - i] + [octet];
      r := r + [octet];
      i := i - 1;
    }
    assert out[..1 + nOctets] == out;
  }

  // ---------------------------------------------------------------------
  // Integer-value: a short-integer below 128, a long-integer otherwise.

  function Integer(v: nat): seq<byte>
  {
    if v < 128 then [ShortInteger(v)] else LongInteger(v)
  }

  function ParseInteger(s: seq<byte>): Option<(nat, nat)>
  {
    if s == [] then None
    else if s[0] >= 128 then Some((s[0] - 128, 1))
    else ParseLongInteger(s)
  }

  lemma IntegerRoundTrip(v: nat, rest: seq<byte>)
    requires v < LongIntegerLimit
    ensures ParseInteger(Integer(v) + rest) == Some((v, |Integer(v)|))
  {
    if v >= 128 {
      LongIntegerRoundTrip(v, rest);
      LongIntegerLength(v);
    }
  }

  /** `Wsp.WriteShortInteger`. */
  method WriteShortInteger(stream: seq<byte>, v: byte) returns (r: seq<byte>)
    ensures r == stream + [ShortInteger(v)]
  {
    r := stream + [if v >= 0x80 then v else v + 0x80];
  }

  /** `Wsp.WriteInteger`. */
  method WriteInteger(stream: seq<byte>, v: nat) returns (r: seq<byte>)
    requires v < LongIntegerLimit
    ensures r == stream + Integer(v)
  {
    if v < 128 {
      r := WriteShortInteger(stream, v);
    } else {
      r := WriteLongInteger(stream, v);
    }
  }

  // ---------------------------------------------------------------------
  // Value-length (section 8.4.2.2): a short length 0..30, or Length-quote and a uintvar.

  function ValueLength(n: nat): seq<byte>
  {
    if n <= 30 then [n] else [LengthQuote] + Uintvar(n)
  }

  function ParseValueLength(s: seq<byte>): Option<(nat, nat)>
  {
    if s == [] then None
    else if s[0] <= 30 then Some((s[0], 1))
    else if s[0] == LengthQuote then
      match ParseUintvar(s[1..])
      case None => None
      case Some(p) => Some((p.0, p.1 + 1))
    else None
  }

  lemma ValueLengthRoundTrip(n: nat, rest: seq<byte>)
    ensures ParseValueLength(ValueLength(n) + rest) == Some((n, |ValueLength(n)|))
  {
    if n > 30 {
      LongValueLengthRoundTrip(n, rest);
    }
  }

  lemma LongValueLengthRoundTrip(n: nat, rest: seq<byte>)
    requires n > 30
    ensures ParseValueLength([LengthQuote] + Uintvar(n) + rest) == Some((n, 1 + |Uintvar(n)|))
  {
    var s := [LengthQuote] + Uintvar(n) + rest;
    assert s[1..] == Uintvar(n) + rest;
    UintvarRoundTrip(n, rest);
  }

  lemma ValueLengthExamples()
    ensures ValueLength(30) == [0x1E]
    ensures ValueLength(45) == [0x1F, 0x2D]
  {
    assert Digits(45, 128) == [45];
  }

  /** `Wsp.WriteValueLength`. */
  method WriteValueLength(stream: seq<byte>, n: nat) returns (r: seq<byte>)
    ensures r == stream + ValueLength(n)
  {
    if n <= 30 {
      r := stream + [n];
    } else {
      r := stream + [LengthQuote];
      r := WriteUintvar(r, n);
    }
  }

  // ---------------------------------------------------------------------
  // Text-string (section 8.4.2.1): an optional Quote, the UTF-8 text, a NUL.

  /** The test `(text[0] & 0x80) > 0`: bit 7 of the first UTF-16 code unit. */
  predicate NeedsQuote(c: char)
  {
    FirstUtf16Unit(c) % 256 >= 128
  }

  function TextString(text: string): (r: seq<byte>)
    requires text != []
    ensures |r| == (if NeedsQuote(text[0]) then 1 else 0) + |Utf8(text)| + 1
    ensures r[|r| - 1] == 0
  {
    (if NeedsQuote(text[0]) then [Quote] else []) + Utf8(text) + [0]
  }

  /** `Wsp.WriteExtensionMedia`: the UTF-8 text and a NUL, never quoted. */
  function ExtensionMedia(extension: string): (r: seq<byte>)
    ensures |r| == |Utf8(extension)| + 1 && r[|r| - 1] == 0
  {
    Utf8(extension) + [0]
  }

  /** The index of the first NUL at or after k. */
  function NulFrom(s: seq<byte>, k: nat): (r: Option<nat>)
    requires k <= |s|
    ensures r.Some? ==> k <= r.value < |s| && s[r.value] == 0 && forall i :: k <= i < r.value ==> s[i] != 0
    ensures r.None? ==> forall i :: k <= i < |s| ==> s[i] != 0
    decreases |s| - k
  {
    if k == |s| then None else if s[k] == 0 then Some(k) else NulFrom(s, k + 1)
  }

  /** Reads a Text-string: drops a leading Quote and returns the octets before the NUL and the octets consumed. */
  function ParseTextString(s: seq<byte>): Option<(seq<byte>, nat)>
  {
    if s == [] then None
    else
      var start := if s[0] == Quote then 1 else 0;
      match NulFrom(s, start)
      case None => None
      case Some(k) => Some((s[start..k], k + 1))
  }

  lemma NulAfter(prefix: seq<byte>, body: seq<byte>, rest: seq<byte>)
    requires forall i :: 0 <= i < |body| ==> body[i] != 0
    ensures NulFrom(prefix + body + [0] + rest, |prefix|) == Some(|prefix| + |body|)
  {
    var s := prefix + body + [0] + rest;
    var k := |prefix| + |body|;
    assert s[k] == 0;
    assert forall i :: |prefix| <= i < k ==> s[i] == body[i - |prefix|];
  }

  /** The first octet of a text-string is the Quote exactly when the writer added one. */
  lemma TextStringFirst(text: string)
    requires text != [] && text[0] != 0x7F as char
    ensures TextString(text)[0] == Quote <==> NeedsQuote(text[0])
  {
    if !NeedsQuote(text[0]) {
      assert TextString(text)[0] == Utf8(text)[0] == Utf8Char(text[0])[0];
    }
  }

  /** An optional Quote, NUL-free octets that do not begin with a Quote when it is absent, and a NUL
      read back as those octets. */
  lemma ParseTextStringOf(q: seq<byte>, u: seq<byte>, rest: seq<byte>)
    requires q == [] || q == [Quote]
    requires q == [] ==> u != [] && u[0] != Quote
    requires forall i :: 0 <= i < |u| ==> u[i] != 0
    ensures ParseTextString(q + u + [0] + rest) == Some((u, |q| + |u| + 1))
  {
    var s := q + u + [0] + rest;
    assert s[0] == Quote <==> q == [Quote];
    NulAfter(q, u, rest);
    assert s[|q|..|q| + |u|] == u;
  }

  /** A text without NUL, not starting with DEL, is read back as its UTF-8 octets. */
  lemma TextStringRoundTrip(text: string, rest: seq<byte>)
    requires text != [] && NoNul(text) && text[0] != 0x7F as char
    ensures ParseTextString(TextString(text) + rest) == Some((Utf8(text), |TextString(text)|))
  {
    var u := Utf8(text);
    var q: seq<byte> := if NeedsQuote(text[0]) then [Quote] else [];
    assert TextString(text) == q + u + [0];
    assert u[0] == Utf8Char(text[0])[0] != Quote;
    ParseTextStringOf(q, u, rest);
  }

  /** Below U+0100 the quote is written exactly when the first UTF-8 octet has its top bit set,
      as section 8.4.2.1 requires. */
  lemma QuoteMatchesFirstOctet(c: char)
    requires c as int < 0x100
    ensures NeedsQuote(c) <==> Utf8Char(c)[0] >= 128
  {}

  /** From U+0100 on the test reads the wrong bit: U+0100 has first UTF-8 octet 0xC4 and is not quoted. */
  lemma QuoteMissedForU0100()
    ensures !NeedsQuote(0x100 as char)
    ensures TextString([0x100 as char]) == [0xC4, 0x80, 0x00]
  {
    assert Utf8([0x100 as char]) == Utf8Char(0x100 as char);
  }

  /** An ASCII text is its own bytes and is never quoted, so it is framed as its bytes and a NUL. */
  lemma TextStringOfAscii(text: string)
    requires text != [] && IsAscii(text)
    ensures TextString(text) == Ascii(text) + [0]
  {
    Utf8OfAscii(text);
  }

  /** `Wsp.WriteTextString`: the empty text fails on `text[0]` before anything is written. */
  method WriteTextString(stream: seq<byte>, text: string) returns (r: Result<seq<byte>>)
    ensures text == [] ==> r == Err(EmptyText)
    ensures text != [] ==> r == Ok(stream + TextString(text))
  {
    if text == [] {
      return Err(EmptyText);
    }
    var bytes := Utf8(text);
    var out := stream;
    if FirstUtf16Unit(text[0]) % 256 >= 128 {
      out := out + [Quote];
    }
    out := out + bytes;
    out := out + [0];
    assert out == stream + TextString(text);
    return Ok(out);
  }

  /** `Wsp.WriteExtensionMedia`. */
  method WriteExtensionMedia(stream: seq<byte>, extension: string) returns (r: seq<byte>)
    ensures r == stream + ExtensionMedia(extension)
  {
    r := stream + Utf8(extension);
    r := r + [0];
  }
}
