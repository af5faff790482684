/** Java strings as UTF-16. A Dafny string is a sequence of code points; a
    Java String is a sequence of 16-bit chars, in which every code point
    above U+FFFF takes two chars (a surrogate pair). `length()`,
    `toCharArray()` and `hashCode()` all work on those chars. */
module Utf16 {

  /** A code point that Java stores as a surrogate pair. */
  predicate IsSupplementary(c: char)
  {
    c as int >= 0x1_0000
  }

  /** The Java chars of one code point: itself below U+10000, otherwise a
      high surrogate followed by a low surrogate. */
  function Units(c: char): (u: seq<int>)
    ensures |u| == if IsSupplementary(c) then 2 else 1
    ensures forall k | 0 <= k < |u| :: 0 <= u[k] < 0x1_0000
    ensures !IsSupplementary(c) ==> u == [c as int]
    ensures IsSupplementary(c) ==> 0xD800 <= u[0] < 0xDC00 <= u[1] < 0xE000
    ensures IsSupplementary(c) ==> (u[0] - 0xD800) * 0x400 + (u[1] - 0xDC00) + 0x1_0000 == c as int
  {
    if IsSupplementary(c) then
      var v := c as int - 0x1_0000;
      [0xD800 + v / 0x400, 0xDC00 + v % 0x400]
    else
      [c as int]
  }

  /** String.toCharArray: the chars of the whole string, in order; there
      are length() of them, each a 16-bit value. */
  function Chars(s: string): (u: seq<int>)
    ensures |u| == Length(s)
    ensures forall k | 0 <= k < |u| :: 0 <= u[k] < 0x1_0000
    decreases |s|
  {
    if |s| == 0 then [] else Units(s[0]) + Chars(s[1..])
  }

  /** String.length: the number of chars, so a supplementary code point
      counts twice. */
  function Length(s: string): (n: nat)
    ensures |s| <= n <= 2 * |s|
    decreases |s|
  {
    if |s| == 0 then 0 else (if IsSupplementary(s[0]) then 2 else 1) + Length(s[1..])
  }

  /** Without supplementary code points, chars and code points coincide. */
  lemma {:induction false} BmpLength(s: string)
    requires forall i | 0 <= i < |s| :: !IsSupplementary(s[i])
    ensures Length(s) == |s|
    decreases |s|
  {
    if |s| > 0 {
      assert forall i | 0 <= i < |s| - 1 :: s[1..][i] == s[i + 1];
      BmpLength(s[1..]);
    }
  }

  /** A string of supplementary code points only has twice as many chars. */
  lemma {:induction false} SupplementaryLength(s: string)
    requires forall i | 0 <= i < |s| :: IsSupplementary(s[i])
    ensures Length(s) == 2 * |s|
    decreases |s|
  {
    if |s| > 0 {
      assert forall i | 0 <= i < |s| - 1 :: s[1..][i] == s[i + 1];
      SupplementaryLength(s[1..]);
    }
  }

  /** The length of a concatenation is the sum of the lengths. */
  lemma {:induction false} LengthAppend(s: string, t: string)
    ensures Length(s + t) == Length(s) + Length(t)
    decreases |s|
  {
    if |s| > 0 {
      assert (s + t)[0] == s[0];
      assert (s + t)[1..] == s[1..] + t;
      LengthAppend(s[1..], t);
    } else {
      assert s + t == t;
    }
  }

  /** Different code points never share their chars, so toCharArray loses
      nothing: the pair of a supplementary code point decodes back to it. */
  lemma UnitsInjective(c: char, d: char)
    requires Units(c) == Units(d)
    ensures c == d
  {
  }
}
