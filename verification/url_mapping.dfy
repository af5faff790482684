/** The URL mapping record: eight fields, identified by its short code alone. */
module UrlMappings {
  import opened Outcomes
  import Utf16

  /** One stored mapping. `shortCode` and `expiresAt` are nullable in the
      source; a `None` expiry means the mapping never expires. */
  datatype UrlMapping = UrlMapping(
    shortCode: Option<string>,
    longUrl: string,
    createdAt: int,
    userId: string,
    isActive: bool,
    expiresAt: Option<int>,
    customAlias: bool,
    clickCount: int)

  /** equals(Object): a null argument is unequal; otherwise only the short
      codes are compared, two null codes counting as equal. */
  function Equals(m: UrlMapping, o: Option<UrlMapping>): (b: bool)
    // `this == o` holds of the same object, and null is never equal
    ensures o == Some(m) ==> b
    ensures o.None? ==> !b
    // equal objects must have equal hash codes
    ensures b ==> HashCode(m) == HashCode(o.value)
  {
    && o.Some?
    && match m.shortCode
       case Some(code) => o.value.shortCode == Some(code)
       case None => o.value.shortCode.None?
  }

  /** Equality is sameness of short code, null included, and nothing else. */
  lemma EqualsIsSameCode(m: UrlMapping, o: Option<UrlMapping>)
    ensures Equals(m, o) <==> o.Some? && o.value.shortCode == m.shortCode
    ensures o.Some? && m.shortCode.None? && o.value.shortCode.None? ==> Equals(m, o)
    ensures o.Some? && m.shortCode.None? != o.value.shortCode.None? ==> !Equals(m, o)
  {
  }

  /** equals is an equivalence relation on mappings. */
  lemma EqualsIsEquivalence(a: UrlMapping, b: UrlMapping, c: UrlMapping)
    ensures Equals(a, Some(a))
    ensures Equals(a, Some(b)) ==> Equals(b, Some(a))
    ensures Equals(a, Some(b)) && Equals(b, Some(c)) ==> Equals(a, Some(c))
  {
  }

  /** Wrap an integer to Java's 32-bit `int`. */
  function ToInt32(x: int): (r: int)
    ensures -0x8000_0000 <= r < 0x8000_0000
    ensures (r - x) % 0x1_0000_0000 == 0
  {
    var u := x % 0x1_0000_0000;
    if u >= 0x8000_0000 then u - 0x1_0000_0000 else u
  }

  /** String.hashCode: h = 31 * h + c over the chars (UTF-16 units), in
      32-bit arithmetic. */
  function StringHash(chars: seq<int>): (h: int)
    ensures -0x8000_0000 <= h < 0x8000_0000
    ensures |chars| == 1 ==> h == ToInt32(chars[0])
  {
    if |chars| == 0 then 0 else ToInt32(31 * StringHash(chars[..|chars| - 1]) + chars[|chars| - 1])
  }

  /** hashCode: the hash of the short code's chars, 0 for a null code. */
  function HashCode(m: UrlMapping): (h: int)
    ensures -0x8000_0000 <= h < 0x8000_0000
    ensures m.shortCode.None? ==> h == 0
    ensures m.shortCode == Some([]) ==> h == 0
  {
    match m.shortCode
    case Some(code) => StringHash(Utf16.Chars(code))
    case None => 0
  }

  /** hashCode agrees with equals: equal mappings hash alike, whatever their
      other fields hold. */
  lemma HashCodeRespectsEquals(a: UrlMapping, b: UrlMapping)
    requires Equals(a, Some(b))
    ensures HashCode(a) == HashCode(b)
  {
  }
}
