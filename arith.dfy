/** Octets, and the `(byte)` cast of the encoders. */
module Arith {
  /**
   * An octet. The C# bit operators on bytes are written as the arithmetic they
   * amount to: a shift by a constant is a multiplication or division by a power
   * of two, an AND with 2^k - 1 a remainder, an OR of disjoint bit fields a sum.
   */
  type byte = x: int | 0 <= x < 256

  /** A C# `(byte)` cast: the value taken mod 256. */
  function ByteOf(x: int): byte
  {
    x % 256
  }

  /** `Math.Ceiling((double)a / b)`, exact for the operands the library uses. */
  function CeilDiv(a: nat, b: nat): (r: nat)
    requires b > 0
    ensures r * b >= a && (r > 0 ==> (r - 1) * b < a)
  {
    var q := a / b;
    if a % b == 0 then q else q + 1
  }

  /** Regrouping of appended streams, stated once so that callers need no extensionality. */
  lemma AppendAssoc<T>(a: seq<T>, b: seq<T>, c: seq<T>)
    ensures a + b + c == a + (b + c)
  {}

  /** A prefix one longer is the shorter prefix and the element after it. */
  lemma PrefixSnoc<T>(s: seq<T>, x: nat)
    requires x < |s|
    ensures s[..x + 1] == s[..x] + [s[x]]
  {
  }

  /** Dropping a prefix of a concatenation leaves the rest. */
  lemma DropPrefix<T>(a: seq<T>, b: seq<T>)
    ensures (a + b)[|a|..] == b
  {
  }

  /** A stream extended by four parts in turn is the stream extended by their concatenation. */
  lemma AppendFour<T>(s: seq<T>, a: seq<T>, b: seq<T>, c: seq<T>, d: seq<T>)
    ensures s + a + b + c + d == s + (a + b + c + d)
  {
    AppendAssoc(s, a, b);
    AppendAssoc(s, a + b, c);
    AppendAssoc(s, a + b + c, d);
  }

  lemma AppendAssoc4<T>(a: seq<T>, b: seq<T>, c: seq<T>, d: seq<T>)
    ensures a + (b + (c + d)) == a + b + c + d
  {
    AppendAssoc(a, b, c + d);
    AppendAssoc(a + b, c, d);
  }
}
