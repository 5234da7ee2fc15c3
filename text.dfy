/**
 * The parts of .NET text handling the encoders rely on: the UTF-8, ASCII,
 * ISO-8859-1 and big-endian UTF-16 encoders, ASCII lower-casing, Trim and
 * two-digit upper-case hex formatting. StartsWith and IndexOf are ordinal here,
 * while the encoders call the culture-sensitive .NET overloads; the two agree
 * on text without ignorable code points such as the soft hyphen U+00AD.
 * A Dafny `char` is a Unicode scalar value, so strings never hold a lone surrogate.
 */
module Text {
  import opened Wrappers
  import opened Arith

  /** UTF-8 bytes of one scalar value. */
  function Utf8Char(c: char): (u: seq<byte>)
    ensures 1 <= |u| <= 4 && (|u| == 1) == (c as int < 0x80)
    ensures u[0] == 0 <==> c == 0 as char
    ensures u[0] == 0x7F <==> c == 0x7F as char
    ensures |u| == 1 ==> u[0] == c as int
    ensures |u| > 1 ==> u[0] >= 0xC0
    ensures forall i :: 1 <= i < |u| ==> u[i] >= 0x80
  {
    var v := c as int;
    if v < 0x80 then [v]
    else if v < 0x800 then [0xC0 + v / 64, 0x80 + v % 64]
    else if v < 0x10000 then [0xE0 + v / 4096, 0x80 + (v / 64) % 64, 0x80 + v % 64]
    else [0xF0 + v / 262144, 0x80 + (v / 4096) % 64, 0x80 + (v / 64) % 64, 0x80 + v % 64]
  }

  /** A string without the NUL character. */
  predicate NoNul(s: string)
  {
    forall i :: 0 <= i < |s| ==> s[i] != 0 as char
  }

  /** `Encoding.UTF8.GetBytes`. */
  function Utf8(s: string): (r: seq<byte>)
    ensures |r| >= |s|
    ensures s == [] <==> r == []
    ensures s != [] ==> r[0] == Utf8Char(s[0])[0]
    ensures NoNul(s) ==> forall i :: 0 <= i < |r| ==> r[i] != 0
  {
    if s == [] then [] else Utf8Char(s[0]) + Utf8(s[1..])
  }

  /** A string of 7-bit characters. */
  predicate IsAscii(s: string)
  {
    forall i :: 0 <= i < |s| ==> s[i] as int < 0x80
  }

  /** `Encoding.ASCII.GetBytes`: one byte per character, '?' for anything above 0x7F. */
  function Ascii(s: string): (r: seq<byte>)
    ensures |r| == |s|
    ensures forall i :: 0 <= i < |s| ==> r[i] == (if s[i] as int < 0x80 then s[i] as int else 0x3F)
  {
    seq(|s|, i requires 0 <= i < |s| => if s[i] as int < 0x80 then s[i] as int else 0x3F)
  }

  /** `Encoding.GetEncoding("iso-8859-1").GetBytes`: one byte per character, '?' above 0xFF. */
  function Latin1(s: string): (r: seq<byte>)
    ensures |r| == |s|
    ensures forall i :: 0 <= i < |s| ==> r[i] == (if s[i] as int < 0x100 then s[i] as int else 0x3F)
  {
    seq(|s|, i requires 0 <= i < |s| => if s[i] as int < 0x100 then s[i] as int else 0x3F)
  }

  /** Big-endian UTF-16 code units of one scalar value (a surrogate pair above 0xFFFF). */
  function Utf16Char(c: char): (r: seq<byte>)
    ensures |r| == 2 || |r| == 4
    ensures (|r| == 2) == (c as int < 0x10000)
  {
    var v := c as int;
    if v < 0x10000 then [ByteOf(v / 256), ByteOf(v)]
    else
      var hi := 0xD800 + (v - 0x10000) / 1024;
      var lo := 0xDC00 + (v - 0x10000) % 1024;
      [ByteOf(hi / 256), ByteOf(hi), ByteOf(lo / 256), ByteOf(lo)]
  }

  /** `Encoding.BigEndianUnicode.GetBytes`. */
  function Utf16BE(s: string): (r: seq<byte>)
    ensures |r| >= 2 * |s|
  {
    if s == [] then [] else Utf16Char(s[0]) + Utf16BE(s[1..])
  }

  /** `String.Length`: the number of UTF-16 code units. */
  function Utf16Length(s: string): (n: nat)
    ensures n >= |s|
    ensures IsAscii(s) ==> n == |s|
  {
    if s == [] then 0 else (if s[0] as int < 0x10000 then 1 else 2) + Utf16Length(s[1..])
  }

  /** A UTF-16 string is never longer, in units, than the UTF-8 octets, and as long only for ASCII. */
  lemma {:induction false} Utf16ShorterThanUtf8(s: string)
    ensures Utf16Length(s) <= |Utf8(s)|
    ensures Utf16Length(s) == |Utf8(s)| <==> IsAscii(s)
  {
    if s != [] {
      Utf16ShorterThanUtf8(s[1..]);
      assert IsAscii(s) <==> s[0] as int < 0x80 && IsAscii(s[1..]) by {
        if s[0] as int < 0x80 && IsAscii(s[1..]) {
          forall i | 0 <= i < |s| ensures s[i] as int < 0x80 {
            if i > 0 { assert s[i] == s[1..][i - 1]; }
          }
        }
      }
    }
  }

  /** The first UTF-16 code unit of a scalar value, what `text[0]` reads in C#. */
  function FirstUtf16Unit(c: char): (u: nat)
    ensures u < 0x10000
    ensures c as int < 0x10000 ==> u == c as int
  {
    var v := c as int;
    if v < 0x10000 then v else 0xD800 + (v - 0x10000) / 1024
  }

  /** The UTF-16 code units of one scalar value: the value itself below 0x10000, otherwise a high
      and a low surrogate; `Encoding.BigEndianUnicode` writes each unit high octet first. */
  function Utf16UnitsOf(c: char): (u: seq<nat>)
    ensures |u| == (if c as int < 0x10000 then 1 else 2) && u[0] == FirstUtf16Unit(c)
    ensures c as int >= 0x10000 ==> 0xD800 <= u[0] < 0xDC00 && 0xDC00 <= u[1] < 0xE000
  {
    var v := c as int;
    if v < 0x10000 then [v]
    else [0xD800 + (v - 0x10000) / 1024, 0xDC00 + (v - 0x10000) % 1024]
  }

  /** `Encoding.BigEndianUnicode` writes each unit of a character, high octet first. */
  lemma Utf16CharUnits(c: char)
    ensures |Utf16Char(c)| == 2 * |Utf16UnitsOf(c)|
    ensures forall k :: 0 <= k < |Utf16UnitsOf(c)| ==>
              Utf16Char(c)[2 * k] as int * 256 + Utf16Char(c)[2 * k + 1] == Utf16UnitsOf(c)[k]
  {
    var u, b := Utf16UnitsOf(c), Utf16Char(c);
    forall k | 0 <= k < |u|
      ensures b[2 * k] as int * 256 + b[2 * k + 1] == u[k]
    {
      UnitOctets(u[k]);
    }
  }

  /** A unit is its high octet times 256 plus its low octet. */
  lemma UnitOctets(x: nat)
    requires x < 0x10000
    ensures ByteOf(x / 256) as int * 256 + ByteOf(x) == x
  {
    assert ByteOf(x / 256) == x / 256;
  }

  /** A string as .NET holds it: C#'s `s[i]` reads unit i and `s.Length` counts the units. */
  function Utf16Units(s: string): (u: seq<nat>)
    ensures |u| == Utf16Length(s)
    ensures forall i :: 0 <= i < |u| ==> u[i] < 0x10000
  {
    if s == [] then [] else Utf16UnitsOf(s[0]) + Utf16Units(s[1..])
  }

  /** Below U+10000 every scalar value is a single unit, so the units are the characters. */
  lemma {:induction false} Utf16UnitsBmp(s: string)
    requires forall i :: 0 <= i < |s| ==> s[i] as int < 0x10000
    ensures |Utf16Units(s)| == |s|
    ensures forall i :: 0 <= i < |s| ==> Utf16Units(s)[i] == s[i] as int
  {
    if s != [] {
      Utf16UnitsBmp(s[1..]);
      var u := Utf16Units(s);
      assert u == [s[0] as int] + Utf16Units(s[1..]);
      forall i | 0 <= i < |s|
        ensures u[i] == s[i] as int
      {
        if i > 0 { assert u[i] == Utf16Units(s[1..])[i - 1] && s[i] == s[1..][i - 1]; }
      }
    }
  }

  /** UTF-8 encodes a concatenation piece by piece. */
  lemma {:induction false} Utf8Append(a: string, b: string)
    ensures Utf8(a + b) == Utf8(a) + Utf8(b)
  {
    if a != [] {
      Utf8Append(a[1..], b);
      assert (a + b)[0] == a[0] && (a + b)[1..] == a[1..] + b;
      calc {
        Utf8(a + b);
        Utf8Char(a[0]) + Utf8(a[1..] + b);
        Utf8Char(a[0]) + (Utf8(a[1..]) + Utf8(b));
        { AppendAssoc(Utf8Char(a[0]), Utf8(a[1..]), Utf8(b)); }
        Utf8(a) + Utf8(b);
      }
    } else {
      assert a + b == b;
    }
  }

  /** A slice of a string without NUL has no NUL. */
  lemma NoNulSlice(s: string, i: nat, j: nat)
    requires NoNul(s) && i <= j <= |s|
    ensures NoNul(s[i..j])
  {
    assert forall k :: 0 <= k < j - i ==> s[i..j][k] == s[i + k];
  }

  lemma Utf8OfAscii(s: string)
    requires IsAscii(s)
    ensures Utf8(s) == Ascii(s)
  {
    if s != [] {
      Utf8OfAscii(s[1..]);
    }
  }

  /** Ordinal `String.StartsWith`. */
  predicate StartsWith(s: string, prefix: string)
  {
    |prefix| <= |s| && s[..|prefix|] == prefix
  }

  /** Ordinal `String.IndexOf`: the first position where `pat` occurs, or None. */
  function IndexOf(s: string, pat: string): (r: Option<nat>)
    ensures r.Some? ==> r.value + |pat| <= |s| && s[r.value..r.value + |pat|] == pat
    ensures r.Some? ==> forall k :: 0 <= k < r.value ==> !StartsWith(s[k..], pat)
    ensures r.None? ==> forall k :: 0 <= k <= |s| ==> !StartsWith(s[k..], pat)
  {
    IndexFrom(s, pat, 0)
  }

  function IndexFrom(s: string, pat: string, k: nat): (r: Option<nat>)
    requires k <= |s|
    ensures r.Some? ==> k <= r.value && r.value + |pat| <= |s| && s[r.value..r.value + |pat|] == pat
    ensures r.Some? ==> forall j :: k <= j < r.value ==> !StartsWith(s[j..], pat)
    ensures r.None? ==> forall j :: k <= j <= |s| ==> !StartsWith(s[j..], pat)
    decreases |s| - k
  {
    if StartsWith(s[k..], pat) then Some(k)
    else if k == |s| then None
    else IndexFrom(s, pat, k + 1)
  }

  /** Lower-casing of the ASCII letters A-Z. `String.ToLower` follows the current culture and
      also maps some other capitals, a few of them onto ASCII letters; those are not modelled. */
  function ToLower(s: string): (r: string)
    ensures |r| == |s|
    ensures forall i :: 0 <= i < |s| ==> r[i] == (if 'A' <= s[i] <= 'Z' then (s[i] as int + 32) as char else s[i])
  {
    seq(|s|, i requires 0 <= i < |s| => if 'A' <= s[i] <= 'Z' then (s[i] as int + 32) as char else s[i])
  }

  lemma LowerHasNoCapital(s: string, i: nat)
    requires i < |s|
    ensures !('A' <= ToLower(s)[i] <= 'Z')
  {}

  /** `Char.IsWhiteSpace`. */
  predicate IsWhiteSpace(c: char)
  {
    var v := c as int;
    (0x09 <= v <= 0x0D) || v == 0x20 || v == 0x85 || v == 0xA0 || v == 0x1680
    || (0x2000 <= v <= 0x200A) || v == 0x2028 || v == 0x2029 || v == 0x202F
    || v == 0x205F || v == 0x3000
  }

  /** The NUL character, which .NET's number parser accepts after a number. */
  predicate IsNul(c: char)
  {
    c == '\0'
  }

  /** The white space `NumberStyles.AllowLeadingWhite` and `AllowTrailingWhite` skip. */
  predicate IsNumberWhite(c: char)
  {
    0x09 <= c as int <= 0x0D || c as int == 0x20
  }

  /** Drops the leading characters that satisfy `white`. */
  function TrimStart(s: string, white: char -> bool): (r: string)
    ensures |r| <= |s| && r == s[|s| - |r|..]
    ensures r != [] ==> !white(r[0])
  {
    if s != [] && white(s[0]) then TrimStart(s[1..], white) else s
  }

  /** What `TrimStart` drops satisfies `white`. */
  lemma {:induction false} TrimStartDrops(s: string, white: char -> bool)
    ensures All(s[..|s| - |TrimStart(s, white)|], white)
  {
    if s != [] && white(s[0]) {
      TrimStartDrops(s[1..], white);
      var n := |s| - |TrimStart(s, white)|;
      assert forall i :: 1 <= i < n ==> s[..n][i] == s[1..][..n - 1][i - 1];
    }
  }

  /** Drops the trailing characters that satisfy `white`. */
  function TrimEnd(s: string, white: char -> bool): (r: string)
    ensures |r| <= |s| && r == s[..|r|]
    ensures r != [] ==> !white(r[|r| - 1])
  {
    if s != [] && white(s[|s| - 1]) then TrimEnd(s[..|s| - 1], white) else s
  }

  /** What `TrimEnd` drops satisfies `white`. */
  lemma {:induction false} TrimEndDrops(s: string, white: char -> bool)
    ensures All(s[|TrimEnd(s, white)|..], white)
  {
    if s != [] && white(s[|s| - 1]) {
      TrimEndDrops(s[..|s| - 1], white);
      var m := |TrimEnd(s, white)|;
      assert forall i :: 0 <= i < |s| - 1 - m ==> s[m..][i] == s[..|s| - 1][m..][i];
    }
  }

  /** Trimming one character at the start, spelled out. */
  lemma TrimStartOne(a: char, p: char -> bool)
    ensures TrimStart([a], p) == (if p(a) then [] else [a])
  {
    assert [a][1..] == [];
  }

  /** Trimming one character at the end, spelled out. */
  lemma TrimEndOne(a: char, p: char -> bool)
    ensures TrimEnd([a], p) == (if p(a) then [] else [a])
  {
    assert [a][..0] == [];
  }

  /** Trimming two characters at the start, spelled out. */
  lemma TrimStartTwo(a: char, b: char, p: char -> bool)
    ensures TrimStart([a, b], p) == (if p(a) then (if p(b) then [] else [b]) else [a, b])
  {
    assert [a, b][1..] == [b];
    TrimStartOne(b, p);
  }

  /** Trimming two characters at the end, spelled out. */
  lemma TrimEndTwo(a: char, b: char, p: char -> bool)
    ensures TrimEnd([a, b], p) == (if p(b) then (if p(a) then [] else [a]) else [a, b])
  {
    assert [a, b][..1] == [a];
    TrimEndOne(a, p);
  }

  /**
   * `String.Trim()`: the result is the slice `s[k..k + |r|]` with only white space
   * before and after it, and it neither starts nor ends with white space.
   */
  function Trim(s: string): (r: string)
    ensures exists k :: TrimmedAt(s, r, k)
    ensures r != [] ==> !IsWhiteSpace(r[0]) && !IsWhiteSpace(r[|r| - 1])
  {
    var t := TrimStart(s, IsWhiteSpace);
    var r := TrimEnd(t, IsWhiteSpace);
    TrimStartDrops(s, IsWhiteSpace);
    TrimEndDrops(t, IsWhiteSpace);
    assert s[|s| - |t| + |r|..] == t[|r|..];
    assert TrimmedAt(s, r, |s| - |t|);
    r
  }

  /** `r` sits at `k` in `s`, and everything in `s` outside it is white space. */
  predicate TrimmedAt(s: string, r: string, k: int)
  {
    0 <= k && k + |r| <= |s| && r == s[k..k + |r|]
    && All(s[..k], IsWhiteSpace) && All(s[k + |r|..], IsWhiteSpace)
  }

  /** Every character of `t` satisfies `p`. */
  predicate All(t: string, p: char -> bool)
  {
    forall i :: 0 <= i < |t| ==> p(t[i])
  }

  /** A string without white space at either end is its own trim. */
  lemma TrimUnchanged(s: string)
    requires s != [] ==> !IsWhiteSpace(s[0]) && !IsWhiteSpace(s[|s| - 1])
    ensures Trim(s) == s
  {}

  function HexDigitUpper(v: nat): (c: char)
    requires v < 16
    ensures '0' <= c <= '9' || 'A' <= c <= 'F'
  {
    if v < 10 then ('0' as int + v) as char else ('A' as int + v - 10) as char
  }

  /** `b.ToString("X2")`. */
  function HexByte(b: byte): (r: string)
    ensures |r| == 2 && IsAscii(r)
  {
    [HexDigitUpper(b / 16), HexDigitUpper(b % 16)]
  }

  /** The concatenation of `HexByte` over a byte array. */
  function HexString(bytes: seq<byte>): (r: string)
    ensures |r| == 2 * |bytes| && IsAscii(r)
  {
    if bytes == [] then [] else HexByte(bytes[0]) + HexString(bytes[1..])
  }

  /** Every character of the hex form is a digit or an upper-case letter A..F. */
  lemma {:induction false} HexStringDigits(bytes: seq<byte>)
    ensures forall i :: 0 <= i < |HexString(bytes)| ==>
              '0' <= HexString(bytes)[i] <= '9' || 'A' <= HexString(bytes)[i] <= 'F'
  {
    if bytes != [] {
      HexStringDigits(bytes[1..]);
      var h := HexString(bytes);
      assert h == HexByte(bytes[0]) + HexString(bytes[1..]);
      forall i | 0 <= i < |h|
        ensures '0' <= h[i] <= '9' || 'A' <= h[i] <= 'F'
      {
        if i >= 2 { assert h[i] == HexString(bytes[1..])[i - 2]; }
      }
    }
  }

  /** A string of hexadecimal pairs is the hex form of the bytes it is built from, one pair at a time. */
  lemma {:induction false} HexStringSnoc(bytes: seq<byte>, b: byte)
    ensures HexString(bytes + [b]) == HexString(bytes) + HexByte(b)
  {
    if bytes != [] {
      assert (bytes + [b])[1..] == bytes[1..] + [b];
      HexStringSnoc(bytes[1..], b);
    }
  }

  /** The value of a hexadecimal digit of either case. */
  function HexDigitValue(c: char): (r: Option<nat>)
    ensures r.Some? ==> r.value < 16
    ensures r.Some? <==> '0' <= c <= '9' || 'A' <= c <= 'F' || 'a' <= c <= 'f'
  {
    if '0' <= c <= '9' then Some(c as int - '0' as int)
    else if 'A' <= c <= 'F' then Some(c as int - 'A' as int + 10)
    else if 'a' <= c <= 'f' then Some(c as int - 'a' as int + 10)
    else None
  }

  /** `byte.TryParse(s, NumberStyles.HexNumber, ...)` on a string of at most two characters. The
      parser accepts NUL characters at the very end (it keeps them for compatibility), and white
      space skipped before them and before the digits; at least one digit must remain and every
      remaining character must be a hexadecimal digit. */
  function ParseHexByte(s: string): (r: Option<byte>)
    requires |s| <= 2
  {
    HexDigits(TrimEnd(TrimStart(TrimEnd(s, IsNul), IsNumberWhite), IsNumberWhite))
  }

  /** One or two hexadecimal digits read as a number; None for anything else. */
  function HexDigits(t: string): (r: Option<byte>)
    requires |t| <= 2
  {
    if t == [] then None
    else if |t| == 1 then
      (match HexDigitValue(t[0]) case None => None case Some(v) => Some(v))
    else
      match (HexDigitValue(t[0]), HexDigitValue(t[1]))
      case (Some(hi), Some(lo)) => Some(hi * 16 + lo)
      case _ => None
  }

  /** A single digit reads as a pair whose high digit is 0; two digits read as the pair. */
  lemma HexDigitsShort(a: char, b: char)
    ensures HexDigits([a]) == HexPair('0', a)
    ensures HexDigits([a, b]) == HexPair(a, b)
  {
  }

  /** Reading back the two-digit hex form of a byte gives the byte. */
  lemma HexByteRoundTrip(b: byte)
    ensures ParseHexByte(HexByte(b)) == Some(b)
  {
    var h := HexByte(b);
    var hi, lo := HexDigitUpper(b / 16), HexDigitUpper(b % 16);
    assert h == [hi, lo];
    assert !IsNumberWhite(hi) && !IsNumberWhite(lo) && !IsNul(lo);
    assert TrimEnd(h, IsNul) == h;
    assert TrimStart(h, IsNumberWhite) == h;
    assert TrimEnd(h, IsNumberWhite) == h;
    assert HexDigitValue(hi) == Some(b / 16);
    assert HexDigitValue(lo) == Some(b % 16);
  }

  /** The upper-case hex form never holds two different bytes. */
  lemma HexByteInjective(a: byte, b: byte)
    requires HexByte(a) == HexByte(b)
    ensures a == b
  {
    HexByteRoundTrip(a);
    HexByteRoundTrip(b);
  }

  /** The byte written by two hexadecimal digits, or None when either is not one. */
  function HexPair(hi: char, lo: char): (r: Option<byte>)
    ensures r.Some? <==> HexDigitValue(hi).Some? && HexDigitValue(lo).Some?
  {
    match (HexDigitValue(hi), HexDigitValue(lo))
    case (Some(h), Some(l)) => Some(h * 16 + l)
    case _ => None
  }

  /** Reads a string of two-digit hex pairs back into bytes; None when the length is odd or a pair
      is not two hexadecimal digits. */
  function ParseHexString(s: string): Option<seq<byte>>
    decreases |s|
  {
    if s == [] then Some([])
    else if |s| < 2 then None
    else match (HexPair(s[0], s[1]), ParseHexString(s[2..]))
      case (Some(b), Some(tail)) => Some([b] + tail)
      case _ => None
  }

  lemma HexPairOfHexByte(b: byte)
    ensures HexPair(HexByte(b)[0], HexByte(b)[1]) == Some(b)
  {
    var h := HexByte(b);
    assert HexDigitValue(h[0]) == Some(b / 16);
    assert HexDigitValue(h[1]) == Some(b % 16);
  }

  /** A string opening with the hex form of `b` reads back as `b` followed by what its rest reads as. */
  lemma ParseHexStringCons(s: string, b: byte, tail: seq<byte>)
    requires |s| >= 2 && s[..2] == HexByte(b) && ParseHexString(s[2..]) == Some(tail)
    ensures ParseHexString(s) == Some([b] + tail)
  {
    HexPairOfHexByte(b);
    assert s[0] == HexByte(b)[0] && s[1] == HexByte(b)[1];
  }

  lemma HexStringSplit(bytes: seq<byte>)
    requires bytes != []
    ensures HexString(bytes)[..2] == HexByte(bytes[0]) && HexString(bytes)[2..] == HexString(bytes[1..])
  {}

  /** The hex form of a byte string reads back as the bytes. */
  lemma {:induction false} HexStringRoundTrip(bytes: seq<byte>)
    ensures ParseHexString(HexString(bytes)) == Some(bytes)
  {
    if bytes != [] {
      HexStringSplit(bytes);
      HexStringRoundTrip(bytes[1..]);
      ParseHexStringCons(HexString(bytes), bytes[0], bytes[1..]);
      assert [bytes[0]] + bytes[1..] == bytes;
    }
  }
}
