/** The in-memory URL store: a map from short code to mapping. Operations
    return the new map instead of mutating a shared one. */
module UrlRepository {
  import opened Outcomes
  import opened UrlMappings

  type Store = map<string, UrlMapping>

  /** A new repository holds nothing. */
  const Empty: Store := map[]

  /** ConcurrentHashMap refuses a null key with a NullPointerException. */
  datatype SaveError = NullShortCode

  /** Every mapping is stored under its own short code. */
  predicate Keyed(s: Store)
  {
    forall code | code in s :: s[code].shortCode == Some(code)
  }

  /** findByShortCode: the mapping stored under the code, if any. */
  function FindByShortCode(s: Store, code: string): (r: Option<UrlMapping>)
    ensures r.Some? <==> code in s
    ensures r.Some? ==> r.value == s[code]
  {
    if code in s then Some(s[code]) else None
  }

  /** existsByShortCode holds exactly when findByShortCode finds something. */
  function ExistsByShortCode(s: Store, code: string): (b: bool)
    ensures b <==> FindByShortCode(s, code).Some?
  {
    code in s
  }

  /** save: an unconditional upsert keyed by the mapping's short code. */
  function Save(s: Store, m: UrlMapping): (r: Result<Store, SaveError>)
    ensures r.Err? <==> m.shortCode.None?
    ensures r.Ok? ==> FindByShortCode(r.value, m.shortCode.value) == Some(m)
    ensures r.Ok? ==> ExistsByShortCode(r.value, m.shortCode.value)
    ensures r.Ok? ==> r.value.Keys == s.Keys + {m.shortCode.value}
    ensures r.Ok? ==> forall c | c in s && c != m.shortCode.value :: r.value[c] == s[c]
    ensures r.Ok? && Keyed(s) ==> Keyed(r.value)
  {
    match m.shortCode
    case None => Err(NullShortCode)
    case Some(code) => Ok(s[code := m])
  }

  /** softDelete: clear the active flag of an existing mapping; a missing
      code is silently ignored. */
  function SoftDelete(s: Store, code: string): (r: Store)
    ensures r.Keys == s.Keys
    ensures code in s ==> !r[code].isActive
    ensures code in s ==> r[code].(isActive := s[code].isActive) == s[code]
    ensures code !in s ==> r == s
    ensures forall c | c in s && c != code :: r[c] == s[c]
    ensures Keyed(s) ==> Keyed(r)
  {
    if code in s then s[code := s[code].(isActive := false)] else s
  }

  /** updateExpiry: replace the expiry of an existing mapping (None clears
      it); a missing code is silently ignored. */
  function UpdateExpiry(s: Store, code: string, expiresAt: Option<int>): (r: Store)
    ensures r.Keys == s.Keys
    ensures code in s ==> r[code].expiresAt == expiresAt
    ensures code in s ==> r[code].(expiresAt := s[code].expiresAt) == s[code]
    ensures code !in s ==> r == s
    ensures forall c | c in s && c != code :: r[c] == s[c]
    ensures Keyed(s) ==> Keyed(r)
  {
    if code in s then s[code := s[code].(expiresAt := expiresAt)] else s
  }

  /** incrementClickCount: known only from the repository's tests; the
      repository source does not define it. Adds one click to an existing
      mapping; a missing code is ignored. */
  function IncrementClickCount(s: Store, code: string): (r: Store)
    ensures r.Keys == s.Keys
    ensures code in s ==> r[code].clickCount == s[code].clickCount + 1
    ensures code in s ==> r[code].(clickCount := s[code].clickCount) == s[code]
    ensures code !in s ==> r == s
    ensures forall c | c in s && c != code :: r[c] == s[c]
    ensures Keyed(s) ==> Keyed(r)
  {
    if code in s then s[code := s[code].(clickCount := s[code].clickCount + 1)] else s
  }

  /** Soft-deleting twice is the same as soft-deleting once. */
  lemma SoftDeleteIdempotent(s: Store, code: string)
    ensures SoftDelete(SoftDelete(s, code), code) == SoftDelete(s, code)
  {
  }

  /** Setting the same expiry twice is the same as setting it once, and a
      later expiry update overrides an earlier one. */
  lemma UpdateExpiryLastWins(s: Store, code: string, first: Option<int>, second: Option<int>)
    ensures UpdateExpiry(UpdateExpiry(s, code, first), code, second) == UpdateExpiry(s, code, second)
  {
  }

  /** One lifecycle update of an existing link, as the service issues them. */
  datatype Update =
    | Deactivate(code: string)
    | SetExpiry(code: string, expiresAt: Option<int>)
    | Click(code: string)

  function Apply(s: Store, u: Update): (r: Store)
    ensures r.Keys == s.Keys
  {
    match u
    case Deactivate(code) => SoftDelete(s, code)
    case SetExpiry(code, expiresAt) => UpdateExpiry(s, code, expiresAt)
    case Click(code) => IncrementClickCount(s, code)
  }

  /** A sequence of updates, applied in order. */
  function ApplyAll(s: Store, updates: seq<Update>): Store
    decreases |updates|
  {
    if |updates| == 0 then s else ApplyAll(Apply(s, updates[0]), updates[1..])
  }

  /** The fields no update touches: the code, the URL, the creation time,
      the owner and the custom-alias flag. */
  predicate SameLink(before: UrlMapping, after: UrlMapping)
  {
    && after.shortCode == before.shortCode
    && after.longUrl == before.longUrl
    && after.createdAt == before.createdAt
    && after.userId == before.userId
    && after.customAlias == before.customAlias
  }

  /** Only save adds codes: any sequence of lifecycle updates keeps the set
      of codes and every record under its own code, changes only the
      active flag, the expiry and the click count, and never lowers a
      click count. */
  lemma {:induction false} UpdatesKeepCodes(s: Store, updates: seq<Update>)
    requires Keyed(s)
    ensures ApplyAll(s, updates).Keys == s.Keys
    ensures Keyed(ApplyAll(s, updates))
    ensures forall c | c in s :: SameLink(s[c], ApplyAll(s, updates)[c])
    ensures forall c | c in s :: ApplyAll(s, updates)[c].clickCount >= s[c].clickCount
    decreases |updates|
  {
    if |updates| > 0 {
      var next := Apply(s, updates[0]);
      assert Keyed(next) && forall c | c in s :: SameLink(s[c], next[c]) && next[c].clickCount >= s[c].clickCount;
      UpdatesKeepCodes(next, updates[1..]);
    }
  }

  /** The repository scenarios: a saved mapping is found and exists; soft
      delete keeps it findable but inactive; an unknown code is absent;
      three clicks on a count of 5 make 8; counters are per code. */
  lemma RepositoryScenario(m: UrlMapping, other: UrlMapping)
    requires m.shortCode == Some("abc123") && m.clickCount == 5 && m.isActive
    requires other.shortCode == Some("url2") && other.clickCount == 0
    ensures var s := Save(Empty, m).value;
      && ExistsByShortCode(s, "abc123")
      && FindByShortCode(s, "abc123") == Some(m)
      && FindByShortCode(s, "nonexistent") == None
      && FindByShortCode(SoftDelete(s, "abc123"), "abc123").Some?
      && !FindByShortCode(SoftDelete(s, "abc123"), "abc123").value.isActive
      && SoftDelete(s, "nonexistent") == s
    ensures var s := Save(Save(Empty, m).value, other).value;
      var thrice := IncrementClickCount(IncrementClickCount(IncrementClickCount(s, "abc123"), "abc123"), "abc123");
      var clicked := IncrementClickCount(thrice, "url2");
      && clicked["abc123"].clickCount == 8
      && clicked["url2"].clickCount == 1
  {
  }
}
