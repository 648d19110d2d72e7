/** Binary numerals written as '0'/'1' characters, most significant bit first:
    the character/bit conversions shared by the loader and the report, and
    the string-to-integer conversion toInt. */
module BinaryString {

  /** CHAR_BIT * sizeof(unsigned long) on an LP64 platform. */
  const ULongBits: nat := 64

  predicate IsBinary(c: char) {
    c == '0' || c == '1'
  }

  predicate AllBinary(s: string) {
    forall k :: 0 <= k < |s| ==> IsBinary(s[k])
  }

  /** The first n characters of line exist and are binary digits. */
  predicate BinaryPrefix(line: string, n: int) {
    0 <= n <= |line| && forall k :: 0 <= k < n ==> IsBinary(line[k])
  }

  /** The bit a binary digit stands for (a non-zero int stored into a bit). */
  function BitOf(c: char): bool {
    c == '1'
  }

  /** How a bit is written to a text stream. */
  function CharOf(b: bool): char {
    if b then '1' else '0'
  }

  function Pow2(k: nat): (p: nat)
    ensures p >= 1
  {
    if k == 0 then 1 else 2 * Pow2(k - 1)
  }

  lemma {:induction false} Pow2Monotone(j: nat, k: nat)
    requires j <= k
    ensures Pow2(j) <= Pow2(k)
  {
    if j < k {
      Pow2Monotone(j, k - 1);
    }
  }

  /** The value of s read as a binary numeral, most significant bit first. */
  function BinaryValue(s: string): (v: nat)
    requires AllBinary(s)
    ensures v < Pow2(|s|)
  {
    if s == [] then 0
    else 2 * BinaryValue(s[..|s| - 1]) + (if BitOf(s[|s| - 1]) then 1 else 0)
  }

  /** toInt: a string longer than an unsigned long has bits gives 0; otherwise
      the string is read into a bitset of that width, most significant bit
      first, and its value is returned. */
  function ToInt(s: string): (r: nat)
    requires |s| <= ULongBits ==> AllBinary(s)
    ensures r < Pow2(ULongBits)
    ensures |s| > ULongBits ==> r == 0
    ensures |s| <= ULongBits ==> r < Pow2(|s|)
  {
    if |s| > ULongBits then 0
    else
      Pow2Monotone(|s|, ULongBits);
      BinaryValue(s)
  }

  /** The w-digit binary numeral of v (v taken modulo 2^w), most significant
      digit first: the inverse of BinaryValue. */
  function ToBinary(v: nat, w: nat): (r: string)
    ensures |r| == w && AllBinary(r)
  {
    if w == 0 then [] else ToBinary(v / 2, w - 1) + [CharOf(v % 2 == 1)]
  }

  lemma {:induction false} ValueOfNumeral(v: nat, w: nat)
    requires v < Pow2(w)
    ensures BinaryValue(ToBinary(v, w)) == v
  {
    if w > 0 {
      var r := ToBinary(v, w);
      ValueOfNumeral(v / 2, w - 1);
      assert r[..|r| - 1] == ToBinary(v / 2, w - 1);
    }
  }

  lemma {:induction false} NumeralOfValue(s: string)
    requires AllBinary(s)
    ensures ToBinary(BinaryValue(s), |s|) == s
  {
    if s != [] {
      var init := s[..|s| - 1];
      NumeralOfValue(init);
      var v := BinaryValue(s);
      assert v / 2 == BinaryValue(init);
      assert CharOf(v % 2 == 1) == s[|s| - 1];
      assert s == init + [s[|s| - 1]];
    }
  }

  /** toInt reads back every numeral that fits in an unsigned long. */
  lemma ToIntOfNumeral(v: nat, w: nat)
    requires w <= ULongBits && v < Pow2(w)
    ensures ToInt(ToBinary(v, w)) == v
  {
    ValueOfNumeral(v, w);
  }

  /** Writing toInt's result back with as many digits reproduces the input. */
  lemma NumeralOfToInt(s: string)
    requires |s| <= ULongBits && AllBinary(s)
    ensures ToBinary(ToInt(s), |s|) == s
  {
    NumeralOfValue(s);
  }
}
