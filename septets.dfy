/**
 * GSM 7-bit packing (3GPP TS 23.038 section 6.1.2.1.1) as `SMSSubmit.OctetsToSeptets`
 * does it: eight characters of seven bits become seven octets. Character i (with
 * m = i mod 8, m != 7) contributes its bits above bit m to octet i - i/8, and the low
 * m + 1 bits of character i + 1 fill the top of that octet; every eighth character
 * has then been used up entirely and produces no octet.
 *
 * The bit operations are defined by halving and doubling, so that every proof about
 * them stays in linear arithmetic.
 */
module Septets {
  import opened Arith

  function Pow2(k: nat): (p: nat)
    ensures p >= 1
  {
    if k == 0 then 1 else 2 * Pow2(k - 1)
  }

  /** `x >> k`, which is `x / 2^k`. */
  function ShiftRight(x: nat, k: nat): nat
  {
    if k == 0 then x else ShiftRight(x / 2, k - 1)
  }

  /** `x << k`, which is `x * 2^k`. */
  function ShiftLeft(x: nat, k: nat): nat
  {
    if k == 0 then x else 2 * ShiftLeft(x, k - 1)
  }

  /** `x & (2^k - 1)`: the low k bits of x. */
  function LowBits(x: nat, k: nat): nat
  {
    if k == 0 then 0 else x % 2 + 2 * LowBits(x / 2, k - 1)
  }

  /** Bitwise AND of two non-negative numbers. */
  function BitAnd(x: nat, y: nat): nat
    decreases x
  {
    if x == 0 || y == 0 then 0
    else (if x % 2 == 1 && y % 2 == 1 then 1 else 0) + 2 * BitAnd(x / 2, y / 2)
  }

  // ----- facts about the bit operations, each by induction on the shift -----

  lemma {:induction false} AndWithMask(x: nat, k: nat)
    ensures BitAnd(x, Pow2(k) - 1) == LowBits(x, k)
  {
    if x == 0 {
      LowBitsBound(x, k);
    } else if k > 0 {
      var mask := Pow2(k) - 1;
      assert mask == 2 * (Pow2(k - 1) - 1) + 1;
      assert mask % 2 == 1 && mask / 2 == Pow2(k - 1) - 1;
      AndWithMask(x / 2, k - 1);
      assert BitAnd(x, mask) == x % 2 + 2 * BitAnd(x / 2, mask / 2);
    }
  }

  lemma {:induction false} LowBitsBound(x: nat, k: nat)
    ensures LowBits(x, k) <= x && LowBits(x, k) < Pow2(k)
  {
    if k > 0 {
      LowBitsBound(x / 2, k - 1);
    }
  }

  lemma {:induction false} LowBitsSmall(x: nat, k: nat)
    requires x < Pow2(k)
    ensures LowBits(x, k) == x
  {
    if k > 0 {
      LowBitsSmall(x / 2, k - 1);
    }
  }

  lemma {:induction false} ShiftRightBound(x: nat, j: nat, k: nat)
    requires x < Pow2(j + k)
    ensures ShiftRight(x, k) < Pow2(j)
  {
    if k > 0 {
      ShiftRightBound(x / 2, j, k - 1);
    }
  }

  lemma {:induction false} ShiftRightBelow(x: nat, k: nat)
    ensures ShiftRight(x, k) <= x
  {
    if k > 0 {
      ShiftRightBelow(x / 2, k - 1);
    }
  }

  /** Shifting left by k leaves at least 2^k of room below 2^(j + k). */
  lemma {:induction false} ShiftLeftBound(x: nat, j: nat, k: nat)
    requires x < Pow2(j)
    ensures ShiftLeft(x, k) + Pow2(k) <= Pow2(j + k)
  {
    if k > 0 {
      ShiftLeftBound(x, j, k - 1);
    }
  }

  /** Bits shifted in above position k come back out of a right shift by k. */
  lemma {:induction false} ShiftRightOfSum(a: nat, b: nat, k: nat)
    ensures ShiftRight(a + ShiftLeft(b, k), k) == ShiftRight(a, k) + b
  {
    if k > 0 {
      ShiftRightOfSum(a / 2, b, k - 1);
      assert (a + ShiftLeft(b, k)) / 2 == a / 2 + ShiftLeft(b, k - 1);
    }
  }

  /** Bits shifted in above position k do not disturb the low k bits. */
  lemma {:induction false} LowBitsOfSum(a: nat, b: nat, k: nat)
    ensures LowBits(a + ShiftLeft(b, k), k) == LowBits(a, k)
  {
    if k > 0 {
      LowBitsOfSum(a / 2, b, k - 1);
      assert (a + ShiftLeft(b, k)) / 2 == a / 2 + ShiftLeft(b, k - 1);
    }
  }

  /** A number is its low k bits plus the rest shifted back into place. */
  lemma {:induction false} SplitAt(x: nat, k: nat)
    ensures x == LowBits(x, k) + ShiftLeft(ShiftRight(x, k), k)
  {
    if k > 0 {
      SplitAt(x / 2, k - 1);
    }
  }

  /** Clearing the low k bits does not change what a right shift by k keeps. */
  lemma {:induction false} ShiftRightCleared(x: nat, k: nat)
    ensures LowBits(x, k) <= x
    ensures ShiftRight(x - LowBits(x, k), k) == ShiftRight(x, k)
  {
    LowBitsBound(x, k);
    if k > 0 {
      ShiftRightCleared(x / 2, k - 1);
      assert (x - LowBits(x, k)) / 2 == x / 2 - LowBits(x / 2, k - 1);
    }
  }

  // ----- the packing -----

  /** `SMSSubmit.PowSum`: the sum of 2^i for i from n down to startBit. A negative exponent adds
      nothing, since `(int)Math.Pow(2, i)` truncates a fraction to 0; an exponent of 31 or more
      overflows `int`, which the callers never reach. */
  method PowSum(startBit: int, n: int) returns (sum: int)
    requires n <= 30
    ensures n < 0 || startBit > n ==> sum == 0
    ensures 0 <= startBit <= n ==> sum == Pow2(n + 1) - Pow2(startBit)
    ensures startBit < 0 <= n ==> sum == Pow2(n + 1) - 1
  {
    sum := 0;
    var i := n;
    while i >= startBit
      invariant i <= n && (i < n ==> startBit - 1 <= i)
      invariant i >= -1 && 0 <= n ==> sum == Pow2(n + 1) - Pow2(i + 1)
      invariant i < -1 || n < 0 ==> sum == (if n >= 0 then Pow2(n + 1) - 1 else 0)
      decreases i - startBit
    {
      if i >= 0 {
        sum := sum + Pow2(i);
      }
      i := i - 1;
    }
  }

  /** The input extended by the zero octet `OctetsToSeptets` appends before packing. */
  function Padded(c: seq<byte>): (p: seq<byte>)
    ensures |p| == |c| + 1 && p[|c|] == 0
    ensures forall j :: 0 <= j < |c| ==> p[j] == c[j]
  {
    c + [0]
  }

  /** The octet packed for character i (i mod 8 != 7): the character shifted right by m, with the
      low m + 1 bits of the next character (0 after the last) above it, kept to eight bits. */
  function PackedOctet(cur: byte, next: byte, m: nat): byte
    requires m < 7
  {
    ByteOf(ShiftRight(cur, m) + ShiftLeft(LowBits(next, m + 1), 7 - m))
  }

  function SeptetOctet(c: seq<byte>, i: nat): byte
    requires i < |c| && i % 8 != 7
  {
    PackedOctet(c[i], Padded(c)[i + 1], i % 8)
  }

  /** Where the octet of character i lands: one octet fewer for every full group of eight before it. */
  function PackedIndex(i: nat): nat
  {
    i - i / 8
  }

  /** The character whose octet lands at position t: the inverse of `PackedIndex`. */
  function PackSource(t: nat): nat
  {
    t + t / 7
  }

  lemma PackSourceFacts(t: nat)
    ensures PackSource(t) % 8 != 7 && PackedIndex(PackSource(t)) == t
  {
    var g, s := t / 7, t % 7;
    assert t == 7 * g + s;
    assert PackSource(t) == 8 * g + s;
  }

  lemma PackSourceOf(i: nat)
    requires i % 8 != 7
    ensures PackSource(PackedIndex(i)) == i
  {
    var g, s := i / 8, i % 8;
    assert i == 8 * g + s;
    assert PackedIndex(i) == 7 * g + s;
  }

  lemma PackedIndexStep(k: nat)
    requires k > 0
    ensures PackedIndex(k) == PackedIndex(k - 1) + (if (k - 1) % 8 != 7 then 1 else 0)
  {
    var q := (k - 1) / 8;
    assert k - 1 == 8 * q + (k - 1) % 8;
    if (k - 1) % 8 == 7 {
      assert k == 8 * (q + 1);
    } else {
      assert k == 8 * q + ((k - 1) % 8 + 1);
    }
  }

  lemma NextPosition(i: nat)
    ensures (i + 1) % 8 == if i % 8 == 7 then 0 else i % 8 + 1
  {
  }

  lemma {:induction false} PackedIndexMono(i: nat, j: nat)
    requires i <= j
    ensures PackedIndex(i) <= PackedIndex(j)
  {
    if i < j {
      PackedIndexStep(j);
      PackedIndexMono(i, j - 1);
    }
  }

  lemma PackSourceBelow(n: nat, t: nat)
    requires t < PackedIndex(n)
    ensures PackSource(t) < n && PackSource(t) % 8 != 7
  {
    PackSourceFacts(t);
    if PackSource(t) >= n {
      PackedIndexMono(n, PackSource(t));
    }
  }

  /** Octet t of the packed form of c. */
  function PackedAt(c: seq<byte>, t: nat): byte
    requires t < PackedIndex(|c|)
  {
    PackSourceBelow(|c|, t);
    SeptetOctet(c, PackSource(t))
  }

  /** The packed form of c: the octet of every character i with i mod 8 != 7, in order. */
  function Pack(c: seq<byte>): (p: seq<byte>)
    ensures |p| == PackedIndex(|c|)
  {
    seq(PackedIndex(|c|), t requires 0 <= t < PackedIndex(|c|) => PackedAt(c, t))
  }

  /** The octet of character i is at `PackedIndex(i)`. */
  lemma PackAt(c: seq<byte>, i: nat)
    requires i < |c| && i % 8 != 7
    ensures PackedIndex(i) < |Pack(c)| && Pack(c)[PackedIndex(i)] == SeptetOctet(c, i)
  {
    PackedIndexStep(i + 1);
    PackedIndexMono(i + 1, |c|);
    PackSourceOf(i);
  }

  /** `Pack` is the only sequence of the right length holding the octet of every character at
      its packed index. */
  lemma PackCharacterised(c: seq<byte>, r: seq<byte>)
    requires |r| == PackedIndex(|c|)
    requires forall k :: 0 <= k < |c| && k % 8 != 7 ==>
               PackedIndex(k) < |r| && r[PackedIndex(k)] == SeptetOctet(c, k)
    ensures r == Pack(c)
  {
    forall t | 0 <= t < |r|
      ensures r[t] == Pack(c)[t]
    {
      PackSourceBelow(|c|, t);
    }
  }

  /** Packing n octets gives n - n/8 octets, 7n/8 exactly when eight divides n. */
  lemma PackLength(c: seq<byte>)
    ensures |Pack(c)| == |c| - |c| / 8
    ensures |c| % 8 == 0 ==> |Pack(c)| * 8 == |c| * 7
  {
  }

  /** `SMSSubmit.OctetsToSeptets`: the working array is the input followed by a zero; step i
      (i mod 8 != 7) packs character i, and its octet is emitted unless it is the padding. */
  method OctetsToSeptets(octetsArray: seq<byte>) returns (r: seq<byte>)
    ensures r == Pack(octetsArray)
  {
    ghost var c := octetsArray;
    ghost var padded := Padded(c);
    PackedIndexMono(0, |c|);
    var arrayLength := |octetsArray|;
    // `Array.Copy` into a zero-initialised array one element longer
    var workingArray := new byte[arrayLength + 1](j => if 0 <= j < arrayLength then octetsArray[j] else 0);
    arrayLength := workingArray.Length;
    var octets: seq<byte> := [];
    var i := 0;
    while i < arrayLength
      invariant 0 <= i <= arrayLength == workingArray.Length == |c| + 1 == |padded|
      invariant |octets| == PackedIndex(if i <= |c| then i else |c|) <= |Pack(c)|
      invariant octets == Pack(c)[..|octets|]
      invariant forall j :: i < j < arrayLength ==> workingArray[j] == padded[j]
      invariant i < arrayLength ==> workingArray[i] == padded[i] - LowBits(padded[i], i % 8)
    {
      var m := i % 8;
      if m != 7 {
        PackCharacter(workingArray, i, padded);
        if arrayLength - i > 1 {
          PackAt(c, i);
          PackedIndexStep(i + 1);
          PrefixSnoc(Pack(c), |octets|);
          octets := octets + [workingArray[i]];
        }
      } else if i < |c| {
        NextPosition(i);
        assert LowBits(padded[i + 1], 0) == 0;
        PackedIndexStep(i + 1);
      }
      i := i + 1;
    }
    r := octets;
  }

  /** The body of the loop of `OctetsToSeptets` for character i, i mod 8 = m != 7: the low m + 1
      bits of element i + 1 (none past the end) are taken off it and put on top of element i
      shifted right by m, which becomes the packed octet. */
  method PackCharacter(workingArray: array<byte>, i: nat, ghost padded: seq<byte>)
    requires i < workingArray.Length == |padded| && i % 8 != 7
    requires forall j :: i < j < workingArray.Length ==> workingArray[j] == padded[j]
    requires workingArray[i] == padded[i] - LowBits(padded[i], i % 8)
    modifies workingArray
    ensures i + 1 < workingArray.Length ==> workingArray[i] == PackedOctet(padded[i], padded[i + 1], i % 8)
    ensures i + 1 < workingArray.Length ==>
      workingArray[i + 1] == padded[i + 1] - LowBits(padded[i + 1], (i + 1) % 8)
    ensures forall j :: i + 1 < j < workingArray.Length ==> workingArray[j] == old(workingArray[j])
  {
    var arrayLength := workingArray.Length;
    var m := i % 8;
    NextPosition(i);
    var mask := PowSum(0, m);
    var n;
    if i == arrayLength - 1 {
      n := BitAnd(0, mask);
    } else {
      var next := workingArray[i + 1];
      n := BitAnd(next, mask);
      MaskStep(next, m);
      assert next == padded[i + 1] && (i + 1) % 8 == m + 1;
      assert n == LowBits(next, (i + 1) % 8);
      workingArray[i + 1] := next - n;
    }
    // `workingArray[i] /= 2^m` and `workingArray[i] += (byte)(2^(7 - m) * n)`
    var cur := workingArray[i];
    ShiftStep(padded[i], m);
    assert cur == padded[i] - LowBits(padded[i], m);
    assert ShiftRight(cur, m) == ShiftRight(padded[i], m) <= padded[i];
    var packed := ByteOf(ShiftRight(cur, m) + ShiftLeft(n, 7 - m));
    assert i + 1 < arrayLength ==> packed == PackedOctet(padded[i], padded[i + 1], m);
    workingArray[i] := ShiftRight(cur, m);
    workingArray[i] := packed;
  }

  /** The AND with the mask `PowSum(0, m)` keeps the low m + 1 bits. */
  lemma MaskStep(next: byte, m: nat)
    requires m < 7
    ensures BitAnd(next, Pow2(m + 1) - Pow2(0)) == LowBits(next, m + 1) <= next
  {
    AndWithMask(next, m + 1);
    LowBitsBound(next, m + 1);
  }

  /** The division by 2^m of an element whose low m bits were cleared. */
  lemma ShiftStep(x: byte, m: nat)
    ensures LowBits(x, m) <= x
    ensures ShiftRight(x - LowBits(x, m), m) == ShiftRight(x, m) <= x
  {
    ShiftRightCleared(x, m);
    ShiftRightBelow(x, m);
  }

  // ----- unpacking, the inverse -----

  /** A character read back from the octet before it (prev) and its own octet (cur), r = k mod 8:
      its low r bits are the top r bits of prev, its high 7 - r bits the low bits of cur. */
  function UnpackFrom(prev: byte, cur: byte, r: nat): nat
    requires r < 8
  {
    (if r > 0 then ShiftRight(prev, 8 - r) else 0) + (if r < 7 then ShiftLeft(LowBits(cur, 7 - r), r) else 0)
  }

  /** Character k read back from packed octets: octet `PackedIndex(k) - 1` holds its low bits
      (none when k mod 8 = 0), octet `PackedIndex(k)` its high bits (none when k mod 8 = 7). */
  function UnpackSeptet(p: seq<byte>, k: nat): nat
    requires PackedIndex(k + 1) <= |p|
  {
    PackedIndexStep(k + 1);
    var r, j := k % 8, PackedIndex(k);
    UnpackFrom(if r > 0 then p[j - 1] else 0, if r < 7 then p[j] else 0, r)
  }

  /** The first n characters read back from packed octets. */
  function Unpack(p: seq<byte>, n: nat): (s: seq<nat>)
    requires PackedIndex(n) <= |p|
    ensures |s| == n
  {
    if n == 0 then []
    else
      PackedIndexStep(n);
      Unpack(p, n - 1) + [UnpackSeptet(p, n - 1)]
  }

  /** Packing does not wrap when the characters are seven-bit. */
  lemma PackedOctetNoWrap(cur: byte, next: byte, m: nat)
    requires m < 7 && cur < 128
    ensures PackedOctet(cur, next, m) == ShiftRight(cur, m) + ShiftLeft(LowBits(next, m + 1), 7 - m)
    ensures ShiftRight(cur, m) < Pow2(7 - m)
  {
    assert Pow2(7) == 128 && Pow2(8) == 256;
    ShiftRightBound(cur, 7 - m, m);
    LowBitsBound(next, m + 1);
    ShiftLeftBound(LowBits(next, m + 1), m + 1, 7 - m);
  }

  /** The top r bits of the octet packed for the predecessor of b are the low r bits of b. */
  lemma LowPartBack(a: byte, b: byte, r: nat)
    requires a < 128 && 0 < r < 8
    ensures ShiftRight(PackedOctet(a, b, r - 1), 8 - r) == LowBits(b, r)
  {
    PackedOctetNoWrap(a, b, r - 1);
    ShiftRightOfSum(ShiftRight(a, r - 1), LowBits(b, r), 8 - r);
    ShiftRightBound(ShiftRight(a, r - 1), 0, 8 - r);
  }

  /** The low 7 - r bits of the octet packed for b are the bits of b above bit r. */
  lemma HighPartBack(b: byte, d: byte, r: nat)
    requires b < 128 && r < 7
    ensures LowBits(PackedOctet(b, d, r), 7 - r) == ShiftRight(b, r)
  {
    PackedOctetNoWrap(b, d, r);
    LowBitsOfSum(ShiftRight(b, r), LowBits(d, r + 1), 7 - r);
    LowBitsSmall(ShiftRight(b, r), 7 - r);
  }

  /** The arithmetic heart of the round trip: a seven-bit character b, packed into the octet of
      its predecessor a (bit offset r - 1) and into its own (bit offset r), is read back. */
  lemma UnpackPackedSeptet(a: byte, b: byte, d: byte, r: nat)
    requires a < 128 && b < 128 && r < 8
    ensures UnpackFrom(if r > 0 then PackedOctet(a, b, r - 1) else 0,
                       if r < 7 then PackedOctet(b, d, r) else 0, r) == b
  {
    SplitAt(b, r);
    if r > 0 {
      LowPartBack(a, b, r);
    }
    if r < 7 {
      HighPartBack(b, d, r);
    } else {
      assert Pow2(7) == 128;
      LowBitsSmall(b, 7);
    }
  }

  lemma CharacterRoundTrip(c: seq<byte>, k: nat)
    requires k < |c|
    requires forall i :: 0 <= i < |c| ==> c[i] < 128
    ensures PackedIndex(k + 1) <= |Pack(c)|
    ensures UnpackSeptet(Pack(c), k) == c[k]
  {
    PackLength(c);
    PackedIndexStep(k + 1);
    PackedIndexMono(k + 1, |c|);
    var r, j, p := k % 8, PackedIndex(k), Pack(c);
    var a := if r > 0 then c[k - 1] else 0;
    var prev: byte := if r > 0 then PackedOctet(a, c[k], r - 1) else 0;
    var cur: byte := if r < 7 then PackedOctet(c[k], Padded(c)[k + 1], r) else 0;
    if r > 0 {
      PackedIndexStep(k);
      PackAt(c, k - 1);
      assert p[j - 1] == prev;
    }
    if r < 7 {
      PackAt(c, k);
      assert p[j] == cur;
    }
    UnpackSeptetOf(p, k, prev, cur);
    UnpackPackedSeptet(a, c[k], Padded(c)[k + 1], r);
  }

  /** Septet k is read from the two octets around its packed index. */
  lemma UnpackSeptetOf(p: seq<byte>, k: nat, prev: byte, cur: byte)
    requires PackedIndex(k + 1) <= |p|
    requires k % 8 > 0 ==> PackedIndex(k) > 0 && p[PackedIndex(k) - 1] == prev
    requires k % 8 < 7 ==> PackedIndex(k) < |p| && p[PackedIndex(k)] == cur
    ensures UnpackSeptet(p, k) == UnpackFrom(if k % 8 > 0 then prev else 0, if k % 8 < 7 then cur else 0, k % 8)
  {
  }

  /** Unpacking the packed form of seven-bit characters gives them back. */
  lemma {:induction false} PackRoundTrip(c: seq<byte>, n: nat)
    requires n <= |c|
    requires forall i :: 0 <= i < |c| ==> c[i] < 128
    ensures PackedIndex(n) <= |Pack(c)|
    ensures Unpack(Pack(c), n) == c[..n]
  {
    PackLength(c);
    PackedIndexMono(n, |c|);
    if n > 0 {
      PackRoundTrip(c, n - 1);
      CharacterRoundTrip(c, n - 1);
      PrefixSnoc(c, n - 1);
    }
  }
}
