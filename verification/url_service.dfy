/** URL creation and resolution: the validation rules, the choice between a
    custom alias and a generated code, the record written on creation, and
    the lookup that decides whether a short code still redirects.

    The clock is a parameter (`now`, in seconds), and so is the configured
    short domain. The allocator state, its counter-store replies and the URL
    store are threaded through as one `Service` value. */
module UrlService {
  import opened Outcomes
  import Base62
  import TokenService
  import opened UrlMappings
  import UrlRepository
  import Utf16

  /** The short domain the service falls back to when none is configured. */
  const DefaultShortDomain: string := "https://skt.inc"

  const MaxUrlLength: int := 2048
  const MinExpiryDays: int := 1
  const MaxExpiryDays: int := 365
  /** 24L * 60L * 60L */
  const SecondsPerDay: int := 86400
  const MinAliasLength: int := 3
  const MaxAliasLength: int := 20
  const AnonymousUser: string := "anonymous"

  /** Aliases that would shadow the service's own endpoints. */
  const ReservedKeywords: seq<string> := ["shorten", "health", "stats", "api", "admin"]

  // ----- Text helpers: the specific string and pattern operations the rules use.

  predicate StartsWith(s: string, prefix: string)
  {
    |prefix| <= |s| && s[..|prefix|] == prefix
  }

  /** String.contains, as a left-to-right scan. */
  predicate Contains(s: string, part: string)
    decreases |s|
  {
    |part| <= |s| && (s[..|part|] == part || Contains(s[1..], part))
  }

  predicate OccursAt(s: string, part: string, i: int)
  {
    0 <= i <= |s| - |part| && s[i..i + |part|] == part
  }

  /** String.replace(target, ""): drop every occurrence of a non-empty target,
      scanning left to right without overlaps. */
  function RemoveAll(s: string, target: string): (r: string)
    requires |target| > 0
    ensures |r| <= |s|
    decreases |s|
  {
    if |s| < |target| then s
    else if s[..|target|] == target then RemoveAll(s[|target|..], target)
    else [s[0]] + RemoveAll(s[1..], target)
  }

  /** Character.toLowerCase, restricted to ASCII letters, in a locale with
      the usual ASCII case mapping. */
  function LowerChar(c: char): char
  {
    if 'A' <= c <= 'Z' then (c as int + 32) as char else c
  }

  /** String.toLowerCase, restricted to ASCII letters. */
  function ToLower(s: string): (r: string)
    ensures |r| == |s|
    ensures forall i | 0 <= i < |s| :: r[i] == LowerChar(s[i])
  {
    if |s| == 0 then [] else [LowerChar(s[0])] + ToLower(s[1..])
  }

  /** trim().isEmpty(): only characters up to U+0020 (spaces and controls). */
  predicate IsBlank(s: string)
  {
    forall i | 0 <= i < |s| :: s[i] <= ' '
  }

  /** The characters the regex `.` does not match. */
  predicate IsLineTerminator(c: char)
  {
    c == '\n' || c == '\r' || c == '\U{0085}' || c == '\U{2028}' || c == '\U{2029}'
  }

  /** url.matches("^https?://.*"): an http or https prefix, and no line
      terminator anywhere (the whole string has to match). */
  predicate MatchesHttpPattern(url: string)
  {
    && (StartsWith(url, "http://") || StartsWith(url, "https://"))
    && forall i | 0 <= i < |url| :: !IsLineTerminator(url[i])
  }

  /** What follows "http://" or "https://". */
  function AfterScheme(url: string): string
    requires StartsWith(url, "http://") || StartsWith(url, "https://")
  {
    if StartsWith(url, "https://") then url[8..] else url[7..]
  }

  /** The host alternatives of the private-network pattern:
      localhost, 127.0.0.1, 0.0.0.0, 10., 172.16. to 172.31., 192.168. */
  predicate PrivateHostPrefix(rest: string)
  {
    || StartsWith(rest, "localhost")
    || StartsWith(rest, "127.0.0.1")
    || StartsWith(rest, "0.0.0.0")
    || StartsWith(rest, "10.")
    || (&& StartsWith(rest, "172.") && |rest| >= 7 && rest[6] == '.'
        && (|| (rest[4] == '1' && '6' <= rest[5] <= '9')
            || (rest[4] == '2' && '0' <= rest[5] <= '9')
            || (rest[4] == '3' && (rest[5] == '0' || rest[5] == '1'))))
    || StartsWith(rest, "192.168.")
  }

  /** The private-network pattern of the URL check, matched on the whole URL. */
  predicate IsPrivateNetworkUrl(url: string)
  {
    MatchesHttpPattern(url) && PrivateHostPrefix(AfterScheme(url))
  }

  /** The short domain with its scheme removed, lower-cased: what a
      self-referencing URL contains. */
  function DomainMarker(domain: string): string
  {
    RemoveAll(RemoveAll(ToLower(domain), "https://"), "http://")
  }

  /** The self-reference check: the lowered URL contains the domain marker. */
  predicate IsSelfReference(url: string, domain: string)
  {
    Contains(ToLower(url), DomainMarker(domain))
  }

  // ----- Validation

  /** Why a creation request was refused. The source throws
      InvalidUrlException for an out-of-range expiry too. */
  datatype UrlProblem = EmptyUrl | UrlTooLong | MissingScheme | SelfReference | PrivateNetwork | ExpiryOutOfRange

  datatype AliasProblem = AliasTooShort | AliasTooLong | AliasCharacters | ReservedAlias

  datatype Failure =
    | InvalidUrl(problem: UrlProblem)
    | InvalidAlias(aliasProblem: AliasProblem)
    | AliasAlreadyExists(alias: string)
    | AllocationUnavailable

  /** Every condition a URL must meet to be shortened. */
  predicate AcceptableUrl(url: Option<string>, domain: string)
  {
    && url.Some?
    && !IsBlank(url.value)
    && Utf16.Length(url.value) <= MaxUrlLength
    && MatchesHttpPattern(url.value)
    && !IsSelfReference(url.value, domain)
    && !IsPrivateNetworkUrl(url.value)
  }

  /** validateUrl, with the domain of the self-reference check as a
      parameter: the first failing check, in the order blank, length,
      scheme, self-reference, private network. */
  function ValidateUrl(url: Option<string>, domain: string): (r: Option<UrlProblem>)
    ensures r.None? <==> AcceptableUrl(url, domain)
    ensures r == Some(EmptyUrl) <==> url.None? || IsBlank(url.value)
    ensures r == Some(UrlTooLong) <==> url.Some? && !IsBlank(url.value) && Utf16.Length(url.value) > MaxUrlLength
    ensures r == Some(MissingScheme) <==>
      url.Some? && !IsBlank(url.value) && Utf16.Length(url.value) <= MaxUrlLength && !MatchesHttpPattern(url.value)
    ensures r == Some(SelfReference) <==>
      url.Some? && !IsBlank(url.value) && Utf16.Length(url.value) <= MaxUrlLength && MatchesHttpPattern(url.value)
      && IsSelfReference(url.value, domain)
    ensures r == Some(PrivateNetwork) <==>
      url.Some? && !IsBlank(url.value) && Utf16.Length(url.value) <= MaxUrlLength && MatchesHttpPattern(url.value)
      && !IsSelfReference(url.value, domain) && IsPrivateNetworkUrl(url.value)
    ensures r != Some(ExpiryOutOfRange)
  {
    match url
    case None => Some(EmptyUrl)
    case Some(u) =>
      if IsBlank(u) then Some(EmptyUrl)
      else if Utf16.Length(u) > MaxUrlLength then Some(UrlTooLong)
      else if !MatchesHttpPattern(u) then Some(MissingScheme)
      else if IsSelfReference(u, domain) then Some(SelfReference)
      else if IsPrivateNetworkUrl(u) then Some(PrivateNetwork)
      else None
  }

  /** validateExpiry: absent, or between 1 and 365 days inclusive. */
  function ValidateExpiry(days: Option<int>): (r: Option<UrlProblem>)
    ensures r.None? <==> days.None? || MinExpiryDays <= days.value <= MaxExpiryDays
    ensures r.Some? ==> r.value == ExpiryOutOfRange
  {
    match days
    case None => None
    case Some(d) => if d < MinExpiryDays || d > MaxExpiryDays then Some(ExpiryOutOfRange) else None
  }

  /** A character of the class [a-zA-Z0-9-]. */
  predicate IsAliasChar(c: char)
  {
    ('a' <= c <= 'z') || ('A' <= c <= 'Z') || ('0' <= c <= '9') || c == '-'
  }

  /** isReservedKeyword: the alias, lower-cased, is one of the endpoint names. */
  function IsReservedKeyword(alias: string): (b: bool)
    ensures b ==> |alias| in {3, 5, 6, 7}
    ensures b <==> ToLower(alias) in ReservedKeywords
  {
    var lower := ToLower(alias);
    lower == "shorten" || lower == "health" || lower == "stats" || lower == "api" || lower == "admin"
  }

  /** Every condition a custom alias must meet. */
  predicate AcceptableAlias(alias: string)
  {
    && MinAliasLength <= Utf16.Length(alias) <= MaxAliasLength
    && (forall i | 0 <= i < |alias| :: IsAliasChar(alias[i]))
    && !IsReservedKeyword(alias)
  }

  /** validateCustomAlias: the first failing check, in the order too short,
      too long, characters, reserved keyword. */
  function ValidateCustomAlias(alias: string): (r: Option<AliasProblem>)
    ensures r.None? <==> AcceptableAlias(alias)
    ensures r == Some(AliasTooShort) <==> Utf16.Length(alias) < MinAliasLength
    ensures r == Some(AliasTooLong) <==> Utf16.Length(alias) > MaxAliasLength
    ensures r == Some(AliasCharacters) <==>
      MinAliasLength <= Utf16.Length(alias) <= MaxAliasLength && exists i | 0 <= i < |alias| :: !IsAliasChar(alias[i])
    ensures r == Some(ReservedAlias) <==>
      MinAliasLength <= Utf16.Length(alias) <= MaxAliasLength && (forall i | 0 <= i < |alias| :: IsAliasChar(alias[i]))
      && IsReservedKeyword(alias)
  {
    if Utf16.Length(alias) < MinAliasLength then Some(AliasTooShort)
    else if Utf16.Length(alias) > MaxAliasLength then Some(AliasTooLong)
    else if exists i | 0 <= i < |alias| :: !IsAliasChar(alias[i]) then Some(AliasCharacters)
    else if IsReservedKeyword(alias) then Some(ReservedAlias)
    else None
  }

  // ----- Creation

  /** The fields of a shorten request that the service reads. */
  datatype ShortenRequest = ShortenRequest(url: Option<string>, customAlias: Option<string>, expiryInDays: Option<int>)

  datatype ShortenResponse = ShortenResponse(
    shortCode: string, shortUrl: string, longUrl: string, createdAt: int, expiresAt: Option<int>)

  /** Everything creation reads and writes: the URL store, the allocator, and
      the replies its counter store will give. */
  datatype Service = Service(
    urls: UrlRepository.Store, tokens: TokenService.Allocator, replies: seq<TokenService.Reply>)

  /** The base URL when one is given and non-empty, else the configured domain. */
  function EffectiveDomain(baseUrl: Option<string>, shortDomain: string): (d: string)
    ensures baseUrl.Some? && |baseUrl.value| > 0 ==> d == baseUrl.value
    ensures baseUrl.None? || baseUrl.value == [] ==> d == shortDomain
  {
    if baseUrl.Some? && |baseUrl.value| > 0 then baseUrl.value else shortDomain
  }

  /** The expiry of a new mapping: now plus the given number of days. */
  function ExpiryFrom(now: int, days: Option<int>): (e: Option<int>)
    ensures e.Some? <==> days.Some?
    ensures days.Some? && days.value >= MinExpiryDays ==> e.value > now
    ensures days.Some? ==> e.value - now == days.value * SecondsPerDay
  {
    match days
    case None => None
    case Some(d) => Some(now + d * SecondsPerDay)
  }

  /** The alias branch is taken for a present, non-empty alias only; an
      empty alias falls through to a generated code. */
  predicate UsesAlias(request: ShortenRequest)
  {
    request.customAlias.Some? && |request.customAlias.value| > 0
  }

  /** Build, store and describe the new mapping under the chosen code. */
  function Record(svc: Service, code: string, url: string, request: ShortenRequest, domain: string, now: int): (r: (Result<ShortenResponse, Failure>, Service))
    ensures r.0.Ok? && r.0.value.shortCode == code && r.0.value.shortUrl == domain + "/" + code
    ensures r.0.value.longUrl == url && r.0.value.createdAt == now
    ensures r.0.value.expiresAt == ExpiryFrom(now, request.expiryInDays)
    // the response describes the stored record, which is active, anonymous and unclicked
    ensures UrlRepository.FindByShortCode(r.1.urls, code) == Some(UrlMapping(
      Some(code), r.0.value.longUrl, r.0.value.createdAt, AnonymousUser, true, r.0.value.expiresAt,
      request.customAlias.Some?, 0))
    // one key is added or replaced; every other record and the allocator are untouched
    ensures r.1.urls.Keys == svc.urls.Keys + {code}
    ensures forall c | c in svc.urls && c != code :: r.1.urls[c] == svc.urls[c]
    ensures r.1.tokens == svc.tokens && r.1.replies == svc.replies
  {
    var expiresAt := ExpiryFrom(now, request.expiryInDays);
    var mapping := UrlMapping(Some(code), url, now, AnonymousUser, true, expiresAt,
                              request.customAlias.Some?, 0);
    var urls := UrlRepository.Save(svc.urls, mapping).value;
    (Ok(ShortenResponse(code, domain + "/" + code, url, now, expiresAt)), svc.(urls := urls))
  }

  /** createShortUrl(request, baseUrl) at time `now`. */
  function CreateShortUrl(svc: Service, request: ShortenRequest, baseUrl: Option<string>,
                          shortDomain: string, now: int): (r: (Result<ShortenResponse, Failure>, Service))
    // fail-fast order: URL, expiry, alias format, alias existence
    ensures var domain := EffectiveDomain(baseUrl, shortDomain);
      ValidateUrl(request.url, domain).Some? ==>
        r == (Err(InvalidUrl(ValidateUrl(request.url, domain).value)), svc)
    ensures (&& AcceptableUrl(request.url, EffectiveDomain(baseUrl, shortDomain))
             && ValidateExpiry(request.expiryInDays).Some?) ==>
        r == (Err(InvalidUrl(ExpiryOutOfRange)), svc)
    ensures (&& AcceptableUrl(request.url, EffectiveDomain(baseUrl, shortDomain))
             && ValidateExpiry(request.expiryInDays).None? && UsesAlias(request)
             && ValidateCustomAlias(request.customAlias.value).Some?) ==>
        r == (Err(InvalidAlias(ValidateCustomAlias(request.customAlias.value).value)), svc)
    ensures (&& AcceptableUrl(request.url, EffectiveDomain(baseUrl, shortDomain))
             && ValidateExpiry(request.expiryInDays).None? && UsesAlias(request)
             && AcceptableAlias(request.customAlias.value)) ==>
        (request.customAlias.value in svc.urls <==> r == (Err(AliasAlreadyExists(request.customAlias.value)), svc))
    // no failure writes a mapping; only a failed refill touches the allocator
    ensures r.0.Err? ==> r.1.urls == svc.urls
    ensures r.0.Err? && r.0.error != AllocationUnavailable ==> r.1 == svc
    ensures r.0 == Err(AllocationUnavailable) ==> r.1.tokens == svc.tokens && !UsesAlias(request)
    // the alias branch never calls the allocator and never overwrites
    ensures UsesAlias(request) ==> r.1.tokens == svc.tokens && r.1.replies == svc.replies
    ensures UsesAlias(request) && r.0.Ok? ==>
      r.0.value.shortCode == request.customAlias.value && request.customAlias.value !in svc.urls
    // the generated branch encodes the next id
    ensures !UsesAlias(request) && r.0.Ok? ==>
      var step := TokenService.GetNextId(svc.tokens, svc.replies);
      && step.issued.Some?
      && r.0.value.shortCode == Base62.Encode(step.issued.value)
      && r.1.tokens == step.state && r.1.replies == step.rest
    // the stored mapping and the response
    ensures r.0.Ok? ==> AcceptableUrl(request.url, EffectiveDomain(baseUrl, shortDomain))
    ensures r.0.Ok? ==> Recorded(svc, request, EffectiveDomain(baseUrl, shortDomain), now, r)
    ensures r.0.Ok? && request.expiryInDays.None? ==> r.0.value.expiresAt.None?
    ensures r.0.Ok? && request.expiryInDays.Some? ==>
      && MinExpiryDays <= request.expiryInDays.value <= MaxExpiryDays
      && r.0.value.expiresAt == Some(now + request.expiryInDays.value * SecondsPerDay)
      && r.0.value.expiresAt.value > now
  {
    var domain := EffectiveDomain(baseUrl, shortDomain);
    match ValidateUrl(request.url, domain)
    case Some(problem) => (Err(InvalidUrl(problem)), svc)
    case None =>
      match ValidateExpiry(request.expiryInDays)
      case Some(problem) => (Err(InvalidUrl(problem)), svc)
      case None =>
        if UsesAlias(request) then CreateWithAlias(svc, request, domain, now)
        else CreateGenerated(svc, request, domain, now)
  }

  /** What a successful creation leaves behind: the store gains, under the
      response's code, an active, anonymous, unclicked record of the URL,
      and the response describes that record. */
  predicate Recorded(svc: Service, request: ShortenRequest, domain: string, now: int,
                     r: (Result<ShortenResponse, Failure>, Service))
  {
    && r.0.Ok? && request.url.Some?
    && var code := r.0.value.shortCode;
    && r.1.urls == svc.urls[code := UrlMapping(Some(code), request.url.value, now, AnonymousUser, true,
                                               r.0.value.expiresAt, request.customAlias.Some?, 0)]
    && r.0.value.shortUrl == domain + "/" + code
    && r.0.value.longUrl == request.url.value
    && r.0.value.createdAt == now
    && r.0.value.expiresAt == ExpiryFrom(now, request.expiryInDays)
  }

  /** The custom-alias branch: check the alias format, refuse an alias that
      is taken, otherwise record the mapping under the alias. */
  function CreateWithAlias(svc: Service, request: ShortenRequest, domain: string, now: int): (r: (Result<ShortenResponse, Failure>, Service))
    requires UsesAlias(request) && request.url.Some?
    ensures var alias := request.customAlias.value;
      ValidateCustomAlias(alias).Some? ==> r == (Err(InvalidAlias(ValidateCustomAlias(alias).value)), svc)
    ensures var alias := request.customAlias.value;
      AcceptableAlias(alias) ==> (alias in svc.urls <==> r == (Err(AliasAlreadyExists(alias)), svc))
    ensures r.0.Err? ==> r.1 == svc
    ensures r.1.tokens == svc.tokens && r.1.replies == svc.replies
    ensures r.0.Ok? ==> && request.customAlias.value !in svc.urls
                        && r.0.value.shortCode == request.customAlias.value
                        && Recorded(svc, request, domain, now, r)
  {
    var alias := request.customAlias.value;
    match ValidateCustomAlias(alias)
    case Some(problem) => (Err(InvalidAlias(problem)), svc)
    case None =>
      if UrlRepository.ExistsByShortCode(svc.urls, alias) then (Err(AliasAlreadyExists(alias)), svc)
      else Record(svc, alias, request.url.value, request, domain, now)
  }

  /** The generated branch: take the next id from the allocator and record
      the mapping under its encoding, without looking for an existing one. */
  function CreateGenerated(svc: Service, request: ShortenRequest, domain: string, now: int): (r: (Result<ShortenResponse, Failure>, Service))
    requires request.url.Some?
    ensures var step := TokenService.GetNextId(svc.tokens, svc.replies);
      && (r.0.Err? <==> step.issued.None?)
      && (r.0.Err? ==> r == (Err(AllocationUnavailable), svc.(tokens := step.state, replies := step.rest)))
      && r.1.tokens == step.state && r.1.replies == step.rest
      && (r.0.Ok? ==> && r.0.value.shortCode == Base62.Encode(step.issued.value)
                      && Recorded(svc, request, domain, now, r))
  {
    var step := TokenService.GetNextId(svc.tokens, svc.replies);
    var svc' := svc.(tokens := step.state, replies := step.rest);
    match step.issued
    case None => (Err(AllocationUnavailable), svc')
    case Some(id) => Record(svc', Base62.Encode(id), request.url.value, request, domain, now)
  }

  // ----- Resolution

  /** The two UrlExpiredException messages. */
  datatype GoneReason = Deactivated | Expired

  /** NotFound and Gone stay distinct, as the HTTP layer maps them differently. */
  datatype ResolveError = NotFound(code: string) | Gone(reason: GoneReason)

  /** The mapping is active and its expiry, if any, is not before `now`. */
  predicate Resolvable(m: UrlMapping, now: int)
  {
    m.isActive && (m.expiresAt.None? || m.expiresAt.value >= now)
  }

  /** getOriginalUrl at time `now`: not found, deactivated (checked first),
      expired (strictly before now), or the stored mapping unchanged. */
  function GetOriginalUrl(urls: UrlRepository.Store, code: string, now: int): (r: Result<UrlMapping, ResolveError>)
    ensures r == Err(NotFound(code)) <==> code !in urls
    ensures r == Err(Gone(Deactivated)) <==> code in urls && !urls[code].isActive
    ensures r == Err(Gone(Expired)) <==>
      code in urls && urls[code].isActive && urls[code].expiresAt.Some? && urls[code].expiresAt.value < now
    ensures r.Ok? <==> code in urls && Resolvable(urls[code], now)
    ensures r.Ok? ==> r.value == urls[code]
  {
    match UrlRepository.FindByShortCode(urls, code)
    case None => Err(NotFound(code))
    case Some(m) =>
      if !m.isActive then Err(Gone(Deactivated))
      else if m.expiresAt.Some? && m.expiresAt.value < now then Err(Gone(Expired))
      else Ok(m)
  }

  // ----- Properties

  /** The scan finds the part exactly when it occurs at some offset. */
  lemma {:induction false} ContainsIffOccurs(s: string, part: string)
    ensures Contains(s, part) <==> exists i :: OccursAt(s, part, i)
    decreases |s|
  {
    if |part| <= |s| {
      if s[..|part|] == part {
        assert OccursAt(s, part, 0);
      } else {
        ContainsIffOccurs(s[1..], part);
        if Contains(s[1..], part) {
          var i :| OccursAt(s[1..], part, i);
          assert s[i + 1..i + 1 + |part|] == s[1..][i..i + |part|];
          assert OccursAt(s, part, i + 1);
        }
        if i :| OccursAt(s, part, i) {
          assert i != 0;
          assert s[1..][i - 1..i - 1 + |part|] == s[i..i + |part|];
          assert OccursAt(s[1..], part, i - 1);
        }
      }
    } else {
      if i :| OccursAt(s, part, i) {
        assert false;
      }
    }
  }

  /** Lower-casing is idempotent, so the reserved check ignores case. */
  lemma ReservedIgnoresCase(alias: string)
    ensures ToLower(ToLower(alias)) == ToLower(alias)
    ensures IsReservedKeyword(ToLower(alias)) == IsReservedKeyword(alias)
  {
    assert ToLower(ToLower(alias)) == ToLower(alias);
  }

  /** With an empty short domain the self-reference marker is empty, so every
      URL that passes the scheme check is refused as self-referencing. */
  lemma EmptyDomainRefusesAll(url: string)
    requires !IsBlank(url) && Utf16.Length(url) <= MaxUrlLength && MatchesHttpPattern(url)
    ensures ValidateUrl(Some(url), "") == Some(SelfReference)
  {
    assert OccursAt(ToLower(url), "", 0);
    ContainsIffOccurs(ToLower(url), "");
  }

  /** A string with no upper-case ASCII letter is its own lower case. */
  lemma LowerIsFixed(s: string)
    requires forall i | 0 <= i < |s| :: !('A' <= s[i] <= 'Z')
    ensures ToLower(s) == s
  {
    assert forall i | 0 <= i < |s| :: ToLower(s)[i] == s[i];
  }

  /** A part with a character the string lacks does not occur in it. */
  lemma AbsentCharNotContained(s: string, part: string, k: int)
    requires 0 <= k < |part| && part[k] !in s
    ensures !Contains(s, part)
  {
    forall i | 0 <= i <= |s| - |part|
      ensures !OccursAt(s, part, i)
    {
      assert s[i..i + |part|][k] == s[i + k];
      assert s[i + k] in s;
    }
    ContainsIffOccurs(s, part);
  }

  /** Removing a target that does not occur leaves the string as it is. */
  lemma {:induction false} RemoveAbsent(s: string, target: string)
    requires |target| > 0 && !Contains(s, target)
    ensures RemoveAll(s, target) == s
    decreases |s|
  {
    if |s| >= |target| {
      RemoveAbsent(s[1..], target);
      assert [s[0]] + s[1..] == s;
    }
  }

  /** The URL checks of the service's tests, against the default domain. */
  lemma EmptyUrlExamples()
    ensures ValidateUrl(None, DefaultShortDomain) == Some(EmptyUrl)
    ensures ValidateUrl(Some(""), DefaultShortDomain) == Some(EmptyUrl)
    ensures ValidateUrl(Some("   "), DefaultShortDomain) == Some(EmptyUrl)
  {
  }

  lemma MissingSchemeExample()
    ensures ValidateUrl(Some("ftp://example.com"), DefaultShortDomain) == Some(MissingScheme)
  {
    var u := "ftp://example.com";
    assert !IsBlank(u) by { assert u[0] == 'f'; }
    assert !StartsWith(u, "http://") && !StartsWith(u, "https://") by { assert u[0] != 'h'; }
  }

  /** A short domain "https://host" marks self-references by its host: a URL
      under that host, with either scheme, is refused as self-referencing. */
  lemma OwnDomainRefused(scheme: string, host: string, path: string)
    requires scheme == "http://" || scheme == "https://"
    requires ':' !in host
    requires forall i | 0 <= i < |host| :: !('A' <= host[i] <= 'Z')
    requires forall i | 0 <= i < |host + path| :: !IsLineTerminator((host + path)[i])
    requires Utf16.Length(scheme + host + path) <= MaxUrlLength
    ensures ValidateUrl(Some(scheme + host + path), "https://" + host) == Some(SelfReference)
  {
    var url, domain := scheme + host + path, "https://" + host;
    OwnDomainContained(scheme, host, path);
    OwnDomainScheme(scheme, host, path);
    assert url[0] == 'h';
    SelfReferenceRefused(url, domain);
  }

  lemma OwnDomainContained(scheme: string, host: string, path: string)
    requires ':' !in host
    requires forall i | 0 <= i < |host| :: !('A' <= host[i] <= 'Z')
    ensures Contains(ToLower(scheme + host + path), DomainMarker("https://" + host))
  {
    OwnDomainMarker(host);
    HostOccursLowered(scheme, host, path);
  }

  lemma OwnDomainScheme(scheme: string, host: string, path: string)
    requires scheme == "http://" || scheme == "https://"
    requires forall i | 0 <= i < |host + path| :: !IsLineTerminator((host + path)[i])
    ensures MatchesHttpPattern(scheme + host + path)
  {
    assert scheme + host + path == scheme + (host + path);
    SchemeMatches(scheme, host + path);
  }

  /** A URL that passes the blank, length and scheme checks and contains
      the domain marker is refused as self-referencing. */
  lemma SelfReferenceRefused(url: string, domain: string)
    requires |url| > 0 && url[0] == 'h'
    requires Utf16.Length(url) <= MaxUrlLength && MatchesHttpPattern(url)
    requires Contains(ToLower(url), DomainMarker(domain))
    ensures ValidateUrl(Some(url), domain) == Some(SelfReference)
  {
  }

  /** After a scheme, the scheme pattern matches exactly when the rest has no
      line terminator; the private-network pattern matches exactly when the
      rest also starts with one of the private host alternatives. */
  lemma SchemeMatches(scheme: string, rest: string)
    requires scheme == "http://" || scheme == "https://"
    ensures MatchesHttpPattern(scheme + rest) <==> forall i | 0 <= i < |rest| :: !IsLineTerminator(rest[i])
    ensures IsPrivateNetworkUrl(scheme + rest) <==>
      (forall i | 0 <= i < |rest| :: !IsLineTerminator(rest[i])) && PrivateHostPrefix(rest)
  {
    var url := scheme + rest;
    assert StartsWith(url, scheme) by { assert url[..|scheme|] == scheme; }
    assert forall i | 0 <= i < |rest| :: url[|scheme| + i] == rest[i];
    forall i | 0 <= i < |url| && |scheme| <= i
      ensures url[i] == rest[i - |scheme|]
    {
    }
    if StartsWith(url, "https://") {
      assert url[4] == 's';
      assert scheme == "https://";
    }
    assert AfterScheme(url) == rest;
  }

  /** The scheme pattern is case-sensitive: an upper-case scheme is refused. */
  lemma UpperCaseSchemeRefused(url: string)
    requires url == "HTTP://example.com"
    ensures ValidateUrl(Some(url), DefaultShortDomain) == Some(MissingScheme)
  {
    assert !IsBlank(url) by { assert url[0] == 'H'; }
    assert !StartsWith(url, "http://") && !StartsWith(url, "https://") by { assert url[0] != 'h'; }
    assert forall i | 0 <= i < |url| :: !Utf16.IsSupplementary(url[i]);
    Utf16.BmpLength(url);
  }

  /** `.` does not match a line terminator, so a URL holding one fails the
      scheme pattern, even after a correct scheme. */
  lemma LineTerminatorRefused(url: string)
    requires url == "https://a.b/\n"
    ensures ValidateUrl(Some(url), DefaultShortDomain) == Some(MissingScheme)
  {
    assert !IsBlank(url) by { assert url[0] == 'h'; }
    assert IsLineTerminator(url[12]);
    assert !MatchesHttpPattern(url);
    assert forall i | 0 <= i < |url| :: !Utf16.IsSupplementary(url[i]);
    Utf16.BmpLength(url);
    assert Utf16.Length(url) <= MaxUrlLength;
  }

  /** The self-reference check is a substring search of the marker. */
  lemma SelfReferenceIsSubstring(url: string, domain: string)
    ensures IsSelfReference(url, domain) <==> exists i :: OccursAt(ToLower(url), DomainMarker(domain), i)
  {
    var lower, marker := ToLower(url), DomainMarker(domain);
    ContainsIffOccurs(lower, marker);
    if IsSelfReference(url, domain) {
      var i :| OccursAt(lower, marker, i);
      assert OccursAt(ToLower(url), DomainMarker(domain), i);
    }
  }

  /** The self-reference check ignores the case of the URL and the domain. */
  lemma SelfReferenceIgnoresCase(url: string, domain: string)
    ensures IsSelfReference(ToLower(url), ToLower(domain)) == IsSelfReference(url, domain)
  {
    LowerIdempotent(url);
    LowerIdempotent(domain);
  }

  lemma LowerIdempotent(s: string)
    ensures ToLower(ToLower(s)) == ToLower(s)
  {
    assert forall i | 0 <= i < |s| :: ToLower(ToLower(s))[i] == ToLower(s)[i];
  }

  /** Stripping the scheme of "https://host" leaves the host when it has no
      upper-case letter and no colon. */
  lemma OwnDomainMarker(host: string)
    requires ':' !in host
    requires forall i | 0 <= i < |host| :: !('A' <= host[i] <= 'Z')
    ensures DomainMarker("https://" + host) == host
  {
    var domain := "https://" + host;
    LowerIsFixed(domain);
    assert domain[..8] == "https://" && domain[8..] == host;
    assert RemoveAll(domain, "https://") == RemoveAll(host, "https://");
    AbsentCharNotContained(host, "https://", 5);
    RemoveAbsent(host, "https://");
    AbsentCharNotContained(host, "http://", 4);
    RemoveAbsent(host, "http://");
  }

  lemma HostOccursLowered(scheme: string, host: string, path: string)
    requires forall i | 0 <= i < |host| :: !('A' <= host[i] <= 'Z')
    ensures Contains(ToLower(scheme + host + path), host)
  {
    var url := scheme + host + path;
    var lower := ToLower(url);
    forall j | 0 <= j < |host|
      ensures lower[|scheme| + j] == host[j]
    {
      assert url[|scheme| + j] == host[j];
    }
    assert OccursAt(lower, host, |scheme|) by {
      assert lower[|scheme|..|scheme| + |host|] == host;
    }
    ContainsIffOccurs(lower, host);
  }

  /** The 172.x alternative of the private-network pattern covers exactly the
      second octets 16 to 31. */
  lemma Private172Range(rest: string)
    requires |rest| >= 7 && rest[..4] == "172." && rest[6] == '.'
    requires '0' <= rest[4] <= '9' && '0' <= rest[5] <= '9'
    ensures PrivateHostPrefix(rest) <==>
      16 <= (rest[4] as int - '0' as int) * 10 + (rest[5] as int - '0' as int) <= 31
  {
    assert rest[0] == '1' && rest[1] == '7' && rest[2] == '2';
    assert StartsWith(rest, "172.");
  }

  /** Hosts of the private-network pattern, as the service's tests use them. */
  lemma PrivateHostExamples()
    ensures PrivateHostPrefix("localhost:8080/test")
    ensures PrivateHostPrefix("192.168.1.1/test")
    ensures PrivateHostPrefix("127.0.0.1")
    ensures PrivateHostPrefix("10.0.0.1")
  {
  }

  lemma Private172Examples()
    ensures PrivateHostPrefix("172.16.0.1") && PrivateHostPrefix("172.31.0.1")
    ensures !PrivateHostPrefix("172.15.0.1") && !PrivateHostPrefix("172.32.0.1")
  {
    Private172Range("172.16.0.1");
    Private172Range("172.31.0.1");
    Private172Range("172.15.0.1");
    Private172Range("172.32.0.1");
  }

  /** The alias checks of the service's tests. */
  lemma AliasTooShortExample()
    ensures ValidateCustomAlias("ab") == Some(AliasTooShort)
  {
  }

  lemma AliasTooLongExample()
    ensures ValidateCustomAlias(seq(21, _ => 'a')) == Some(AliasTooLong)
  {
  }

  lemma AliasCharactersExample()
    ensures ValidateCustomAlias("my link") == Some(AliasCharacters)
  {
    assert !IsAliasChar("my link"[2]);
  }

  lemma ReservedAliasExample(alias: string)
    requires alias == "shorten"
    ensures ValidateCustomAlias(alias) == Some(ReservedAlias)
  {
    LowerIsFixed(alias);
    assert forall i | 0 <= i < |alias| :: IsAliasChar(alias[i]);
  }

  /** The reserved check ignores case: "Admin" is refused like "admin". */
  lemma ReservedAnyCaseExample(alias: string)
    requires alias == "Admin"
    ensures ValidateCustomAlias(alias) == Some(ReservedAlias)
  {
    var lower := ToLower(alias);
    assert lower[0] == 'a' && lower[1..] == alias[1..];
    assert lower == "admin";
    assert forall i | 0 <= i < |alias| :: IsAliasChar(alias[i]);
  }

  lemma AcceptedAliasExample()
    ensures ValidateCustomAlias("mylink").None?
  {
  }

  /** The expiry checks of the service's tests. */
  lemma ExpiryValidationExamples()
    ensures ValidateExpiry(Some(0)) == Some(ExpiryOutOfRange)
    ensures ValidateExpiry(Some(366)) == Some(ExpiryOutOfRange)
    ensures ValidateExpiry(Some(1)).None? && ValidateExpiry(Some(365)).None?
    ensures ValidateExpiry(None).None?
  {
  }

  // ----- Creation and resolution together

  /** A created link resolves to the URL it was created for until its expiry
      passes, and forever when it has none. */
  lemma CreatedLinkResolves(svc: Service, request: ShortenRequest, baseUrl: Option<string>,
                            shortDomain: string, now: int, later: int)
    requires CreateShortUrl(svc, request, baseUrl, shortDomain, now).0.Ok?
    ensures var (r, svc') := CreateShortUrl(svc, request, baseUrl, shortDomain, now);
      var resolved := GetOriginalUrl(svc'.urls, r.value.shortCode, later);
      && (resolved.Ok? <==> r.value.expiresAt.None? || later <= r.value.expiresAt.value)
      && (resolved.Ok? ==> resolved.value.longUrl == r.value.longUrl && resolved.value.isActive)
      && (resolved.Err? ==> resolved == Err(Gone(Expired)))
      && (request.expiryInDays.Some? ==> GetOriginalUrl(svc'.urls, r.value.shortCode, now).Ok?)
  {
  }

  /** A custom alias can be claimed once: asking for it again, with any
      valid URL and expiry, is refused and changes nothing. */
  lemma AliasClaimedOnce(svc: Service, first: ShortenRequest, second: ShortenRequest,
                         baseUrl: Option<string>, shortDomain: string, now: int, later: int)
    requires UsesAlias(first) && second.customAlias == first.customAlias
    requires CreateShortUrl(svc, first, baseUrl, shortDomain, now).0.Ok?
    requires AcceptableUrl(second.url, EffectiveDomain(baseUrl, shortDomain))
    requires ValidateExpiry(second.expiryInDays).None?
    ensures var svc' := CreateShortUrl(svc, first, baseUrl, shortDomain, now).1;
      CreateShortUrl(svc', second, baseUrl, shortDomain, later)
        == (Err(AliasAlreadyExists(first.customAlias.value)), svc')
  {
    var (r, svc') := CreateShortUrl(svc, first, baseUrl, shortDomain, now);
    assert AcceptableAlias(first.customAlias.value);
    assert first.customAlias.value in svc'.urls;
  }

  /** An empty alias takes the generated branch, yet the stored record is
      flagged as a custom alias, because the flag only asks whether an alias
      was present. */
  lemma EmptyAliasIsGeneratedButFlagged(svc: Service, request: ShortenRequest,
                                        baseUrl: Option<string>, shortDomain: string, now: int)
    requires request.customAlias == Some("")
    requires CreateShortUrl(svc, request, baseUrl, shortDomain, now).0.Ok?
    ensures var (r, svc') := CreateShortUrl(svc, request, baseUrl, shortDomain, now);
      var step := TokenService.GetNextId(svc.tokens, svc.replies);
      && step.issued.Some?
      && r.value.shortCode == Base62.Encode(step.issued.value)
      && svc'.urls[r.value.shortCode].customAlias
  {
  }

  /** Two generated links in a row get different codes: the allocator never
      issues an id twice and the encoding is injective. */
  lemma GeneratedCodesDiffer(svc: Service, first: ShortenRequest, second: ShortenRequest,
                             baseUrl: Option<string>, shortDomain: string, now: int, later: int)
    requires TokenService.Valid(svc.tokens) && svc.tokens.currentId >= 0
    requires TokenService.Spaced(svc.tokens.rangeEnd, svc.replies)
    requires !UsesAlias(first) && !UsesAlias(second)
    requires CreateShortUrl(svc, first, baseUrl, shortDomain, now).0.Ok?
    requires var svc' := CreateShortUrl(svc, first, baseUrl, shortDomain, now).1;
      CreateShortUrl(svc', second, baseUrl, shortDomain, later).0.Ok?
    ensures var (r, svc') := CreateShortUrl(svc, first, baseUrl, shortDomain, now);
      var r' := CreateShortUrl(svc', second, baseUrl, shortDomain, later).0;
      r.value.shortCode != r'.value.shortCode
  {
    var (r, svc') := CreateShortUrl(svc, first, baseUrl, shortDomain, now);
    var r' := CreateShortUrl(svc', second, baseUrl, shortDomain, later).0;
    var s1 := TokenService.GetNextId(svc.tokens, svc.replies);
    var s2 := TokenService.GetNextId(s1.state, s1.rest);
    assert r.value.shortCode == Base62.Encode(s1.issued.value);
    assert r'.value.shortCode == Base62.Encode(s2.issued.value);
    TokenService.NextTwoIncrease(svc.tokens, svc.replies);
    if r.value.shortCode == r'.value.shortCode {
      Base62.EncodeInjective(s1.issued.value, s2.issued.value);
    }
  }

  /** The generated branch does not check for an existing record: after the
      alias "0000000" is claimed on a fresh service, the first generated code
      is the same text and its record replaces the alias record. */
  lemma GeneratedCodeReplacesAlias(url: string, domain: string, alias: string, now: int)
    requires AcceptableUrl(Some(url), domain)
    requires alias == "0000000"
    ensures var svc := Service(UrlRepository.Empty, TokenService.Fresh, [TokenService.Total(TokenService.RangeSize)]);
      var (r1, svc1) := CreateShortUrl(svc, ShortenRequest(Some(url), Some(alias), None), Some(domain), domain, now);
      var (r2, svc2) := CreateShortUrl(svc1, ShortenRequest(Some(url), None, None), Some(domain), domain, now);
      && r1 == Ok(ShortenResponse(alias, domain + "/" + alias, url, now, None))
      && svc1.urls[alias].customAlias
      && r2.Ok? && r2.value.shortCode == alias
      && svc2.urls.Keys == {alias}
      && !svc2.urls[alias].customAlias
  {
    ZerosAliasAcceptable(alias);
    Base62.ZeroCaseIsPadding();
  }

  /** Length is counted in UTF-16 chars: 1020 code points above U+FFFF
      after "https://a.b/" are 1032 code points but 2052 chars, too long. */
  lemma SupplementaryUrlTooLong(head: string, tail: string)
    requires head == "https://a.b/"
    requires |tail| == 1020 && forall i | 0 <= i < |tail| :: tail[i] == '\U{1F600}'
    ensures |head + tail| <= MaxUrlLength
    ensures ValidateUrl(Some(head + tail), DefaultShortDomain) == Some(UrlTooLong)
  {
    assert forall i | 0 <= i < |head| :: !Utf16.IsSupplementary(head[i]);
    Utf16.BmpLength(head);
    Utf16.SupplementaryLength(tail);
    Utf16.LengthAppend(head, tail);
    assert (head + tail)[0] == 'h';
  }

  /** Two code points above U+FFFF are four UTF-16 chars: long enough for an
      alias, so the refusal is for the characters, not the length. */
  lemma SupplementaryAliasCharacters(alias: string)
    requires alias == "\U{1F600}\U{1F600}"
    ensures ValidateCustomAlias(alias) == Some(AliasCharacters)
  {
    assert forall i | 0 <= i < |alias| :: Utf16.IsSupplementary(alias[i]);
    Utf16.SupplementaryLength(alias);
    assert !IsAliasChar(alias[0]);
  }

  /** Seven zeros make an acceptable alias: seven characters of the class,
      none outside the Basic Multilingual Plane, and no endpoint name. */
  lemma ZerosAliasAcceptable(alias: string)
    requires alias == "0000000"
    ensures AcceptableAlias(alias)
  {
    LowerIsFixed(alias);
    assert forall i | 0 <= i < |alias| :: IsAliasChar(alias[i]) && !Utf16.IsSupplementary(alias[i]);
    Utf16.BmpLength(alias);
  }

  // ----- Lifecycle updates and resolution

  /** A soft-deleted link is gone as deactivated, whatever its expiry is set
      to afterwards, because the active flag is checked first; other links
      resolve as before. */
  lemma SoftDeletedLinkIsGone(urls: UrlRepository.Store, code: string, other: string,
                              expiresAt: Option<int>, now: int)
    requires code in urls && other != code
    ensures GetOriginalUrl(UrlRepository.SoftDelete(urls, code), code, now) == Err(Gone(Deactivated))
    ensures GetOriginalUrl(UrlRepository.UpdateExpiry(UrlRepository.SoftDelete(urls, code), code, expiresAt), code, now)
      == Err(Gone(Deactivated))
    ensures GetOriginalUrl(UrlRepository.SoftDelete(urls, code), other, now) == GetOriginalUrl(urls, other, now)
  {
  }

  /** Clearing the expiry of an active link makes it resolve again; setting
      it to a later time than now does too. */
  lemma NewExpiryRevives(urls: UrlRepository.Store, code: string, expiresAt: Option<int>, now: int)
    requires code in urls && urls[code].isActive
    requires expiresAt.None? || expiresAt.value >= now
    ensures GetOriginalUrl(UrlRepository.UpdateExpiry(urls, code, expiresAt), code, now).Ok?
  {
  }

  /** A link expiring at time t still resolves at t and is expired one
      second later. */
  lemma ExpiryIsInclusive(urls: UrlRepository.Store, code: string, t: int)
    requires code in urls && urls[code].isActive && urls[code].expiresAt == Some(t)
    ensures GetOriginalUrl(urls, code, t) == Ok(urls[code])
    ensures GetOriginalUrl(urls, code, t + 1) == Err(Gone(Expired))
  {
  }
}
