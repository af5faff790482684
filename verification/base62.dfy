/** The base-62 short-code codec: ids become fixed-width codes over the
    alphabet 0-9, a-z, A-Z and back. Integers are unbounded here; the Java
    `long` never overflows on the values the lemmas talk about. */
module Base62 {
  import Utf16

  /** The alphabet in index order. The source writes it as one literal; it is
      split into its three runs here so that the verifier can index it. */
  const DigitSymbols: string := "0123456789"
  const LowerSymbols: string := "abcdefghijklmnopqrstuvwxyz"
  const UpperSymbols: string := "ABCDEFGHIJKLMNOPQRSTUVWXYZ"
  const Alphabet: string := DigitSymbols + LowerSymbols + UpperSymbols

  const Base: nat := 62
  const CodeLength: nat := 7

  /** 62^7: the number of ids that fit in CodeLength symbols. */
  const Capacity: nat := 3521614606208

  function Pow(b: nat, e: nat): nat
  {
    if e == 0 then 1 else b * Pow(b, e - 1)
  }

  lemma PowPositive(b: nat, e: nat)
    requires b > 0
    ensures Pow(b, e) > 0
  {
    if e > 0 {
      PowPositive(b, e - 1);
    }
  }

  lemma CapacityIsPower()
    ensures Pow(Base, CodeLength) == Capacity
  {
    assert Pow(Base, 2) == 3844;
    assert Pow(Base, 4) == 3844 * 3844 by {
      assert Pow(Base, 4) == Base * Base * Pow(Base, 2);
    }
    assert Pow(Base, 7) == Base * Base * Base * Pow(Base, 4);
  }

  /** The symbol the alphabet holds at index d, by character arithmetic. */
  function Symbol(d: int): char
    requires 0 <= d < Base
  {
    if d < 10 then ('0' as int + d) as char
    else if d < 36 then ('a' as int + (d - 10)) as char
    else ('A' as int + (d - 36)) as char
  }

  lemma DigitSymbolAt(i: int)
    requires 0 <= i < 10
    ensures DigitSymbols[i] == ('0' as int + i) as char
  {
  }

  lemma LowerSymbolAt(i: int)
    requires 0 <= i < 26
    ensures LowerSymbols[i] == ('a' as int + i) as char
  {
  }

  lemma UpperSymbolAt(i: int)
    requires 0 <= i < 26
    ensures UpperSymbols[i] == ('A' as int + i) as char
  {
  }

  /** Symbol i of the alphabet is the i-th digit, lower-case or upper-case letter. */
  lemma AlphabetAt(i: int)
    requires 0 <= i < Base
    ensures |Alphabet| == Base
    ensures Alphabet[i] == Symbol(i)
  {
    if i < 10 {
      DigitSymbolAt(i);
    } else if i < 36 {
      LowerSymbolAt(i - 10);
    } else {
      UpperSymbolAt(i - 36);
    }
  }

  /** String.indexOf on the alphabet: the position of c, or -1 when c is
      not one of the 62 symbols. */
  function IndexOf(c: char): (i: int)
    ensures -1 <= i < Base
    ensures 0 <= i ==> Alphabet[i] == c
    ensures i == -1 <==> c !in Alphabet
    ensures 0 <= i ==> !Utf16.IsSupplementary(c)
  {
    var i := if '0' <= c <= '9' then c as int - '0' as int
      else if 'a' <= c <= 'z' then c as int - 'a' as int + 10
      else if 'A' <= c <= 'Z' then c as int - 'A' as int + 36
      else -1;
    if 0 <= i then
      AlphabetAt(i);
      i
    else
      NotASymbol(c);
      i
  }

  /** A character outside 0-9, a-z and A-Z is not in the alphabet. */
  lemma NotASymbol(c: char)
    requires !('0' <= c <= '9') && !('a' <= c <= 'z') && !('A' <= c <= 'Z')
    ensures c !in Alphabet
  {
    AlphabetAt(0);
    forall k | 0 <= k < |Alphabet|
      ensures Alphabet[k] != c
    {
      AlphabetAt(k);
    }
  }

  /** Every symbol of the alphabet is found at its own index. */
  lemma IndexOfSymbol(d: int)
    requires 0 <= d < Base
    ensures IndexOf(Alphabet[d]) == d
  {
    AlphabetAt(d);
  }

  /** A string every character of which is one of the 62 symbols. */
  predicate IsCode(s: string)
  {
    forall i | 0 <= i < |s| :: s[i] in Alphabet
  }

  /** String.repeat on a one-character string: n copies of ch. */
  function Repeat(ch: char, n: nat): (r: string)
    ensures |r| == n
    ensures forall i | 0 <= i < n :: r[i] == ch
  {
    seq(n, _ => ch)
  }

  /** "0".repeat(n): the padding. */
  function Zeros(n: nat): string
  {
    Repeat('0', n)
  }

  function Max(a: int, b: int): int
  {
    if a < b then b else a
  }

  /** padLeft: prefix '0' symbols up to the target length; never truncates. */
  function PadLeft(s: string, length: int): (r: string)
    ensures |r| == Max(|s|, length)
    ensures r[|r| - |s|..] == s
    ensures forall i | 0 <= i < |r| - |s| :: r[i] == '0'
  {
    Zeros(Max(0, length - |s|)) + s
  }

  /** The symbols the division loop produces for id, most significant first
      (that is, after the reversal): no leading zero, and empty when id <= 0
      because the loop `while (id > 0)` does not run. */
  function Numeral(id: int): (s: string)
    decreases id
  {
    if id <= 0 then [] else Numeral(id / Base) + [Alphabet[id % Base]]
  }

  /** encode: 0 is special-cased, every other id is its numeral padded to 7. */
  function Encode(id: int): (code: string)
    ensures |code| >= CodeLength
    ensures id <= 0 ==> code == Zeros(CodeLength)
  {
    if id == 0 then Zeros(CodeLength) else PadLeft(Numeral(id), CodeLength)
  }

  /** StringBuilder.reverse on the accumulated symbols. */
  function Reverse(s: string): (r: string)
    ensures |r| == |s|
    ensures forall i | 0 <= i < |s| :: r[i] == s[|s| - 1 - i]
  {
    seq(|s|, i requires 0 <= i < |s| => s[|s| - 1 - i])
  }

  /** encode as written: append id % 62 while id > 0, reverse, pad. */
  method EncodeByDivision(id: int) returns (code: string)
    ensures code == Encode(id)
  {
    if id == 0 {
      return Zeros(CodeLength);
    }
    var sb: string := [];
    var n := id;
    while n > 0
      invariant Numeral(id) == Numeral(n) + Reverse(sb)
    {
      var c := Alphabet[n % Base];
      assert Reverse(sb + [c]) == [c] + Reverse(sb);
      sb := sb + [c];
      n := n / Base;
    }
    code := PadLeft(Reverse(sb), CodeLength);
  }

  /** decode: left-to-right Horner evaluation over the code's chars. */
  function Decode(code: string): (id: int)
    ensures IsCode(code) ==> 0 <= id
  {
    if |code| == 0 then 0
    else
      var prefix, c := code[..|code| - 1], code[|code| - 1];
      assert IsCode(code) ==> IsCode(prefix) && c in Alphabet by {
        if IsCode(code) {
          assert forall i | 0 <= i < |prefix| :: prefix[i] == code[i];
        }
      }
      Horner(Decode(prefix), c)
  }

  /** The Horner steps of one code point: one step by its alphabet index (-1
      when absent); a code point above U+FFFF is two chars, a surrogate pair,
      and neither surrogate is in the alphabet, so it takes two -1 steps. */
  function Horner(acc: int, c: char): (r: int)
    ensures 0 <= acc && c in Alphabet ==> acc * Base <= r < acc * Base + Base
  {
    var d := IndexOf(c);
    if Utf16.IsSupplementary(c) then
      assert d == -1;
      (acc * Base - 1) * Base - 1
    else
      acc * Base + d
  }

  /** decode as written: the for-each loop over toCharArray(). */
  method DecodeByHorner(code: string) returns (id: int)
    ensures id == Decode(code)
  {
    id := 0;
    for i := 0 to |code|
      invariant id == Decode(code[..i])
    {
      assert code[..i + 1][..i] == code[..i];
      var c := code[i];
      if Utf16.IsSupplementary(c) {
        // the high and the low surrogate, each missing from the alphabet
        id := id * Base + -1;
        id := id * Base + -1;
      } else {
        id := id * Base + IndexOf(c);
      }
    }
    assert code[..|code|] == code;
  }

  /** Horner's step: appending a symbol multiplies by the base and adds its index. */
  lemma DecodeAppend(s: string, c: char)
    ensures Decode(s + [c]) == Horner(Decode(s), c)
    ensures !Utf16.IsSupplementary(c) ==> Decode(s + [c]) == Base * Decode(s) + IndexOf(c)
  {
    assert (s + [c])[..|s|] == s;
  }

  /** The zero symbol on its own is worth nothing, however many there are. */
  lemma {:induction false} DecodeZeros(n: nat)
    ensures Decode(Zeros(n)) == 0
  {
    if n > 0 {
      assert Zeros(n)[..n - 1] == Zeros(n - 1);
      DecodeZeros(n - 1);
    }
  }

  /** Leading '0' symbols do not change the decoded value. */
  lemma {:induction false} DecodeLeadingZeros(n: nat, s: string)
    ensures Decode(Zeros(n) + s) == Decode(s)
    decreases |s|
  {
    if |s| == 0 {
      assert Zeros(n) + s == Zeros(n);
      DecodeZeros(n);
    } else {
      var p, c := s[..|s| - 1], s[|s| - 1];
      assert s == p + [c];
      assert Zeros(n) + s == (Zeros(n) + p) + [c];
      DecodeAppend(Zeros(n) + p, c);
      DecodeAppend(p, c);
      DecodeLeadingZeros(n, p);
    }
  }

  /** The numeral of a positive id only uses alphabet symbols. */
  lemma {:induction false} NumeralIsCode(id: int)
    ensures IsCode(Numeral(id))
    decreases id
  {
    if id > 0 {
      NumeralIsCode(id / Base);
      AlphabetAt(id % Base);
    }
  }

  /** Decoding the numeral of an id gives the id back. */
  lemma {:induction false} DecodeNumeral(id: nat)
    ensures Decode(Numeral(id)) == id
    decreases id
  {
    if id > 0 {
      DecodeNumeral(id / Base);
      DecodeAppend(Numeral(id / Base), Alphabet[id % Base]);
      IndexOfSymbol(id % Base);
    }
  }

  /** The numeral of id fits in k symbols exactly when id < 62^k. */
  lemma {:induction false} NumeralLength(id: nat, k: nat)
    ensures |Numeral(id)| <= k <==> id < Pow(Base, k)
    decreases id
  {
    PowPositive(Base, k);
    if id > 0 {
      if k == 0 {
        assert |Numeral(id)| >= 1;
      } else {
        NumeralLength(id / Base, k - 1);
      }
    }
  }

  /** Every symbol encode emits is in the alphabet, and the code is never
      shorter than 7 symbols. */
  lemma EncodeIsCode(id: int)
    ensures IsCode(Encode(id))
    ensures |Encode(id)| >= CodeLength
  {
    NumeralIsCode(id);
    if id != 0 {
      var code := Encode(id);
      var pad := |code| - |Numeral(id)|;
      forall i | 0 <= i < |code|
        ensures code[i] in Alphabet
      {
        if i < pad {
          AlphabetAt(0);
        } else {
          assert code[i] == code[pad..][i - pad];
        }
      }
    } else {
      AlphabetAt(0);
    }
  }

  /** Every id below 62^7 encodes to exactly seven symbols. */
  lemma EncodeLength(id: int)
    requires 0 <= id < Capacity
    ensures |Encode(id)| == CodeLength
  {
    CapacityIsPower();
    NumeralLength(id, CodeLength);
  }

  /** There is no range check: an id of 62^7 or more yields its whole numeral,
      longer than seven symbols, and padLeft adds nothing. */
  lemma EncodeBeyondCapacity(id: int)
    requires Capacity <= id
    ensures |Encode(id)| > CodeLength
    ensures Encode(id) == Numeral(id)
  {
    CapacityIsPower();
    NumeralLength(id, CodeLength);
    assert Zeros(0) + Numeral(id) == Numeral(id);
  }

  /** decode is a left inverse of encode on every non-negative id. */
  lemma RoundTrip(id: int)
    requires 0 <= id
    ensures Decode(Encode(id)) == id
  {
    if id == 0 {
      assert Encode(id) == Zeros(CodeLength);
      DecodeZeros(CodeLength);
    } else {
      RoundTripPositive(id);
    }
  }

  lemma RoundTripPositive(id: int)
    requires 0 < id
    ensures Decode(Encode(id)) == id
  {
    var n := Numeral(id);
    var z := Max(0, CodeLength - |n|);
    assert Encode(id) == Zeros(z) + n by {
      assert Encode(id) == PadLeft(n, CodeLength);
    }
    DecodeLeadingZeros(z, n);
    DecodeNumeral(id);
  }

  /** Distinct non-negative ids never share a code. */
  lemma EncodeInjective(a: int, b: int)
    requires 0 <= a && 0 <= b
    requires Encode(a) == Encode(b)
    ensures a == b
  {
    RoundTrip(a);
    RoundTrip(b);
  }

  /** The k-symbol positional representation of id (its k low base-62 digits). */
  function Positional(id: int, k: nat): (s: string)
    decreases k
  {
    if k == 0 then [] else Positional(id / Base, k - 1) + [Alphabet[id % Base]]
  }

  /** A valid code of any width is the positional representation of its value,
      and that value is below 62^width. */
  lemma {:induction false} DecodePositional(code: string)
    requires IsCode(code)
    ensures 0 <= Decode(code) < Pow(Base, |code|)
    ensures Positional(Decode(code), |code|) == code
    decreases |code|
  {
    if |code| > 0 {
      var p, c := code[..|code| - 1], code[|code| - 1];
      IsCodePrefix(code);
      DecodePositional(p);
      SplitLast(code);
      PositionalAppend(p, c);
    }
  }

  /** A non-empty string is its prefix followed by its last character. */
  lemma SplitLast(s: string)
    requires |s| > 0
    ensures s == s[..|s| - 1] + [s[|s| - 1]]
  {
  }

  /** One more valid symbol keeps a positional code positional. */
  lemma PositionalAppend(p: string, c: char)
    requires 0 <= Decode(p) < Pow(Base, |p|)
    requires Positional(Decode(p), |p|) == p
    requires 0 <= IndexOf(c)
    ensures 0 <= Decode(p + [c]) < Pow(Base, |p + [c]|)
    ensures Positional(Decode(p + [c]), |p + [c]|) == p + [c]
  {
    var q, d, n := Decode(p), IndexOf(c), |p|;
    var v := Decode(p + [c]);
    DecodeAppend(p, c);
    DigitStep(v, q, d, Pow(Base, n));
    PositionalUnfold(v, n);
  }

  lemma PositionalUnfold(v: int, n: nat)
    ensures Positional(v, n + 1) == Positional(v / Base, n) + [Alphabet[v % Base]]
    ensures Pow(Base, n + 1) == Base * Pow(Base, n)
  {
  }

  lemma IsCodePrefix(code: string)
    requires IsCode(code) && |code| > 0
    ensures IsCode(code[..|code| - 1])
    ensures 0 <= IndexOf(code[|code| - 1]) < Base
  {
    var p := code[..|code| - 1];
    forall i | 0 <= i < |p|
      ensures p[i] in Alphabet
    {
      assert p[i] == code[i];
    }
  }

  /** Appending a digit d to q and taking it off again gives q and d back,
      and one more digit multiplies the bound by the base. */
  lemma DigitStep(v: int, q: int, d: int, bound: int)
    requires v == Base * q + d
    requires 0 <= d < Base && 0 <= q < bound
    ensures v / Base == q && v % Base == d
    ensures 0 <= v < Base * bound
  {
  }

  /** Padding the numeral of a small id to k symbols gives its k-symbol
      positional representation. */
  lemma {:induction false} PadLeftPositional(id: nat, k: nat)
    requires id < Pow(Base, k)
    ensures PadLeft(Numeral(id), k) == Positional(id, k)
    decreases k
  {
    if k == 0 {
      assert id == 0;
    } else if id == 0 {
      PadLeftPositional(0, k - 1);
      PadZeroStep(k);
      AlphabetAt(0);
    } else {
      var q := id / Base;
      assert q < Pow(Base, k - 1);
      PadLeftPositional(q, k - 1);
      NumeralLength(q, k - 1);
      var c := Alphabet[id % Base];
      assert Numeral(id) == Numeral(q) + [c];
      var z := Max(0, k - |Numeral(id)|);
      assert z == Max(0, (k - 1) - |Numeral(q)|);
      assert PadLeft(Numeral(id), k) == (Zeros(z) + Numeral(q)) + [c];
    }
  }

  /** Padding the empty numeral to k symbols adds one '0' to padding it to k - 1. */
  lemma PadZeroStep(k: nat)
    requires k > 0
    ensures PadLeft(Numeral(0), k) == PadLeft(Numeral(0), k - 1) + ['0']
  {
    assert Zeros(k) == Zeros(k - 1) + ['0'];
    assert PadLeft(Numeral(0), k) == Zeros(k) + [];
    assert PadLeft(Numeral(0), k - 1) == Zeros(k - 1) + [];
  }

  /** The reverse round trip: a seven-symbol code over the alphabet decodes to
      an id that encodes back to the same code. */
  lemma EncodeDecode(code: string)
    requires |code| == CodeLength && IsCode(code)
    ensures 0 <= Decode(code) < Capacity
    ensures Encode(Decode(code)) == code
  {
    CapacityIsPower();
    DecodePositional(code);
    var id := Decode(code);
    PadLeftPositional(id, CodeLength);
    if id == 0 {
      assert PadLeft(Numeral(0), CodeLength) == Zeros(CodeLength) + [];
    }
  }

  /** The special case for 0 agrees with the general path: padding the empty
      numeral also gives seven '0' symbols. */
  lemma ZeroCaseIsPadding()
    ensures Encode(0) == PadLeft(Numeral(0), CodeLength)
    ensures Encode(0) == "0000000"
  {
    assert PadLeft(Numeral(0), CodeLength) == Zeros(CodeLength) + [];
  }

  /** An id below the base is one symbol after six '0' symbols. */
  lemma EncodeSingleSymbol(d: int)
    requires 0 < d < Base
    ensures Encode(d) == Zeros(CodeLength - 1) + [Alphabet[d]]
  {
    assert d / Base == 0 && d % Base == d;
    assert Numeral(d) == [Alphabet[d]] by {
      assert Numeral(d) == Numeral(0) + [Alphabet[d]];
    }
    assert Encode(d) == Zeros(CodeLength - 1) + Numeral(d) by {
      assert Encode(d) == PadLeft(Numeral(d), CodeLength);
    }
  }

  /** The examples of the codec's documentation and tests below the base. */
  lemma EncodeSmallExamples()
    ensures Encode(1) == "0000001"
    ensures Encode(15) == "000000f"
    ensures Encode(35) == "000000z"
    ensures Encode(61) == "000000Z"
  {
    EncodeSingleSymbol(1);
    EncodeSingleSymbol(15);
    EncodeSingleSymbol(35);
    EncodeSingleSymbol(61);
    AlphabetAt(1);
    AlphabetAt(15);
    AlphabetAt(35);
    AlphabetAt(61);
  }

  /** The carry at the base: 62 is the two-symbol numeral "10". */
  lemma EncodeCarryExample(id: int)
    requires id == 62
    ensures Encode(id) == "0000010"
  {
    assert id == Base * 1 + 0;
    EncodeTwoSymbols(1, 0);
    assert [Alphabet[1], Alphabet[0]] == "10" by {
      AlphabetAt(0);
      AlphabetAt(1);
    }
    PadTwoLiteral('1', '0');
  }

  /** One past the carry: 63 is "11". */
  lemma EncodeAfterCarryExample(id: int)
    requires id == 63
    ensures Encode(id) == "0000011"
  {
    assert id == Base * 1 + 1;
    EncodeTwoSymbols(1, 1);
    assert [Alphabet[1], Alphabet[1]] == "11" by {
      AlphabetAt(1);
    }
    PadTwoLiteral('1', '1');
  }

  /** Five '0' symbols and two more, written out. */
  lemma PadTwoLiteral(a: char, b: char)
    ensures Zeros(CodeLength - 2) + [a, b] == ['0', '0', '0', '0', '0', a, b]
  {
  }

  /** An id with two base-62 digits is five '0' symbols and its two digits. */
  lemma EncodeTwoSymbols(high: int, low: int)
    requires 0 < high < Base && 0 <= low < Base
    ensures Encode(Base * high + low) == Zeros(CodeLength - 2) + [Alphabet[high], Alphabet[low]]
  {
    var id := Base * high + low;
    NumeralTwoSymbols(id, high, low);
    PadTwoSymbols(Numeral(id));
  }

  /** The numeral of a two-digit id is its two digits. */
  lemma NumeralTwoSymbols(id: int, high: int, low: int)
    requires id == Base * high + low
    requires 0 < high < Base && 0 <= low < Base
    ensures id > 0
    ensures Numeral(id) == [Alphabet[high], Alphabet[low]]
  {
    NumeralStep(id, high, low);
    NumeralStep(high, 0, high);
    assert Numeral(0) == [];
  }

  /** One more digit appends one symbol to the numeral. */
  lemma NumeralStep(id: int, q: int, d: int)
    requires id == Base * q + d
    requires 0 <= q && 0 <= d < Base && 0 < id
    ensures Numeral(id) == Numeral(q) + [Alphabet[d]]
  {
    DigitStep(id, q, d, q + 1);
  }

  /** Two symbols are padded with five '0' symbols. */
  lemma PadTwoSymbols(s: string)
    requires |s| == 2
    ensures PadLeft(s, CodeLength) == Zeros(CodeLength - 2) + s
  {
  }

  /** k copies of the largest symbol 'Z'. */
  function Tops(k: nat): string
  {
    Repeat('Z', k)
  }

  /** k copies of the largest symbol are worth 62^k - 1. */
  lemma {:induction false} DecodeTops(k: nat)
    ensures Decode(Tops(k)) == Pow(Base, k) - 1
  {
    if k > 0 {
      assert Tops(k) == Tops(k - 1) + ['Z'];
      DecodeAppend(Tops(k - 1), 'Z');
      DecodeTops(k - 1);
      AlphabetAt(61);
      IndexOfSymbol(61);
    }
  }

  /** The largest seven-symbol code: 62^7 - 1 encodes to "ZZZZZZZ" (upper
      case, as the alphabet and the tests have it) and decodes back. */
  lemma MaxCodeExample()
    ensures Decode("ZZZZZZZ") == Capacity - 1
    ensures Encode(Capacity - 1) == "ZZZZZZZ"
  {
    CapacityIsPower();
    assert "ZZZZZZZ" == Tops(7);
    DecodeTops(7);
    AlphabetAt(61);
    assert IsCode(Tops(7));
    EncodeDecode(Tops(7));
  }

  /** A code point above U+FFFF is two foreign chars: decoding U+1F600 gives
      (0 * 62 - 1) * 62 - 1. */
  lemma DecodeSupplementaryExample(code: string)
    requires code == "\U{1F600}"
    ensures Decode(code) == -63
  {
    assert code == [] + [code[0]];
  }

  /** Decoding the documented codes: leading '0' symbols add nothing. */
  lemma DecodeExamples()
    ensures Decode("0000000") == 0
    ensures Decode("0000001") == 1
    ensures Decode("000000f") == 15
    ensures Decode("0000010") == 62
  {
    RoundTrip(0);
    RoundTrip(1);
    RoundTrip(15);
    RoundTrip(62);
    ZeroCaseIsPadding();
    EncodeSmallExamples();
    EncodeCarryExample(62);
  }
}
