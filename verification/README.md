# quicklink: a Dafny model of the URL shortener core

This project models the core of quicklink, a URL shortening service.

- **Short codes.** A code is either a custom alias chosen by the caller or a generated one. A generated code is the next id from a range-based id allocator, written as a seven-symbol base-62 numeral.
- **Store.** Mappings live in a key-value store keyed by short code.
- **Resolution.** A code resolves to its long URL while the mapping is active and not expired.

The model is pure and functional. Every operation takes the state it reads and returns the state it writes.

| file | module | what it models |
|---|---|---|
| `outcomes.dfy` | `Outcomes` | `Option` and `Result`, standing in for nulls and exceptions |
| `utf16.dfy` | `Utf16` | Java strings as UTF-16 chars: `length()`, `toCharArray()` and the surrogate pairs of code points above U+FFFF |
| `base62.dfy` | `Base62` | the base-62 codec: encode by repeated division, decode by Horner evaluation, left padding to seven symbols |
| `token_counter.dfy` | `TokenCounter` | the in-memory counter store, a single add-and-get counter |
| `token_service.dfy` | `TokenService` | the id allocator: it reserves 100 ids per store call and hands them out one by one |
| `url_mapping.dfy` | `UrlMappings` | the mapping record, with its code-only `equals` and `hashCode` |
| `url_repository.dfy` | `UrlRepository` | the in-memory URL store: `save`, `findByShortCode`, `existsByShortCode`, `softDelete`, `updateExpiry` |
| `url_service.dfy` | `UrlService` | URL, expiry and alias validation; `createShortUrl`; `getOriginalUrl` |

A Dafny string is a sequence of Unicode code points, while a Java `String` is a sequence of 16-bit chars. A code point above U+FFFF is two chars in Java, a surrogate pair. So every Java `length()`, `toCharArray()` and `hashCode()` in the core goes through `Utf16` here. In particular, the URL and alias length limits count chars, and `decode` and `hashCode` see both surrogates.

Some inputs of the original are passed in explicitly here:

- the clock, as `now` in seconds;
- the configured short domain;
- the answers of the counter store, as a script of `Reply` values. Each reply is a new total or a failure, and a script that has run out counts as a failing store.

The allocator's correctness depends on the counter store. The model states what it needs from the store as the predicate `TokenService.Spaced`: each total lies at least one range above every earlier one. Every refill sends the request `incrementAndGet("global_counter", 100)`, and `TokenService.Run` records the requests it sends. `TokenService.InMemoryCounterIsConsecutive` proves that the in-memory counter answers such requests with totals of that shape. `TokenService.RunAgainstInMemoryCounter` serves a run's own requests with the in-memory counter and shows that its answers are the replies the run consumed.

Where the code and its comments disagree, the model follows the code:

- **Largest code.** The codec's doc comment gives the largest seven-symbol code as `zzzzzzz`. The alphabet ends in upper case, so it is `ZZZZZZZ`, as the codec's tests also say (`Base62.MaxCodeExample`).
- **Self-reference check.** `validateUrl` refers to a variable `effectiveDomain` that is not in its scope. The model passes the domain of the self-reference check in as a parameter. `createShortUrl` supplies its own effective domain.
- **Default short domain.** The constructor's fallback to `https://skt.inc` runs before Spring injects the `@Value` field. When the property is unset, the field is then overwritten with the empty default. An empty domain makes every URL count as self-referencing, because every string contains the empty string (`UrlService.EmptyDomainRefusesAll`). The model takes the short domain as a parameter, so both outcomes can be stated.

Two consequences of the code as written are proved rather than corrected:

- **A generated code can replace an alias record.** The generated branch does not check whether its code is already taken. So an alias that happens to equal a future generated code, such as `0000000`, is silently replaced by the generated record (`UrlService.GeneratedCodeReplacesAlias`).
- **An empty alias is flagged as custom.** An empty alias takes the generated branch, yet the record is marked as a custom alias (`UrlService.EmptyAliasIsGeneratedButFlagged`).

## Model

| member | source | states |
|---|---|---|
| `Utf16.Units` | src/main/java/inc/skt/quicklink/util/Base62Encoder.java:70 | a code point is one char below U+10000 and otherwise a high surrogate followed by a low surrogate; the pair recombines to the code point |
| `Utf16.UnitsInjective` | src/main/java/inc/skt/quicklink/util/Base62Encoder.java:70 | distinct code points never give the same chars |
| `Utf16.Length` | src/main/java/inc/skt/quicklink/service/UrlService.java:140 | `length()` counts chars: at least the number of code points and at most twice that |
| `Utf16.Chars` | src/main/java/inc/skt/quicklink/util/Base62Encoder.java:70 | `toCharArray()` gives `length()` chars, each a 16-bit value in [0, 65536) |
| `Utf16.LengthAppend` | src/main/java/inc/skt/quicklink/service/UrlService.java:140 | the length of a concatenation is the sum of the lengths |
| `Utf16.BmpLength` | src/main/java/inc/skt/quicklink/service/UrlService.java:140 | without code points above U+FFFF, the Java length is the number of code points |
| `Utf16.SupplementaryLength` | src/main/java/inc/skt/quicklink/service/UrlService.java:166-170 | a string of code points above U+FFFF has twice as many chars as code points |
| `Base62.IndexOf` | src/main/java/inc/skt/quicklink/util/Base62Encoder.java:16-17 | the position of a character in the alphabet, or -1 exactly when the character is not one of the 62 symbols |
| `Base62.PadLeft` | src/main/java/inc/skt/quicklink/util/Base62Encoder.java:83-85 | the result has the larger of the two lengths, so nothing is truncated; it ends with the string, and every symbol before it is '0' |
| `Base62.Encode` | src/main/java/inc/skt/quicklink/util/Base62Encoder.java:32-52 | no code is shorter than seven symbols; 0 and every negative id give 0000000, since the loop `while (id > 0)` never runs for them |
| `Base62.Decode` | src/main/java/inc/skt/quicklink/util/Base62Encoder.java:65-74 | a string over the alphabet decodes to a non-negative value |
| `Base62.Horner` | src/main/java/inc/skt/quicklink/util/Base62Encoder.java:70-71 | one step of the loop on a symbol of the alphabet, from a non-negative value v, lands in [62 * v, 62 * v + 62) |
| `Base62.DecodeAppend` | src/main/java/inc/skt/quicklink/util/Base62Encoder.java:70-71 | appending a char to a code is one more loop step: outside the Basic Multilingual Plane two -1 steps, otherwise the old value times 62 plus the char's index |
| `Base62.CapacityIsPower` | src/main/java/inc/skt/quicklink/util/Base62Encoder.java:11-18 | 3521614606208, one more than the largest documented id, is 62 to the 7th |
| `Base62.EncodeByDivision` | src/main/java/inc/skt/quicklink/util/Base62Encoder.java:32-52 | the division loop, reversal and padding compute the padded base-62 numeral of the id; 0 gives seven '0' symbols |
| `Base62.DecodeByHorner` | src/main/java/inc/skt/quicklink/util/Base62Encoder.java:65-74 | the for-each loop over the code's chars computes the left-to-right Horner value, with -1 for a foreign char and two -1 steps for the two surrogates of a code point above U+FFFF |
| `Base62.DecodeLeadingZeros` | src/main/java/inc/skt/quicklink/util/Base62Encoder.java:83-85 | leading '0' padding never changes the decoded value |
| `Base62.NumeralLength` | src/main/java/inc/skt/quicklink/util/Base62Encoder.java:42-45 | the unpadded numeral of an id fits in k symbols exactly when the id is below 62^k |
| `Base62.EncodeIsCode` | src/main/java/inc/skt/quicklink/util/Base62Encoder.java:32-52 | every symbol of a code is in the alphabet and no code is shorter than seven symbols |
| `Base62.EncodeLength` | src/test/java/inc/skt/quicklink/util/Base62EncoderTest.java:64-69 | every id from 0 to 62^7 - 1 encodes to exactly seven symbols |
| `Base62.EncodeBeyondCapacity` | src/main/java/inc/skt/quicklink/util/Base62Encoder.java:83-85 | there is no range check: an id of 62^7 or more gives its whole numeral, longer than seven symbols |
| `Base62.RoundTrip` | src/test/java/inc/skt/quicklink/util/Base62EncoderTest.java:53-61 | decode(encode(id)) == id for every non-negative id |
| `Base62.EncodeInjective` | src/main/java/inc/skt/quicklink/util/Base62Encoder.java:32-52 | distinct non-negative ids never share a code |
| `Base62.DecodePositional` | src/main/java/inc/skt/quicklink/util/Base62Encoder.java:65-74 | a code over the alphabet decodes to a value below 62^length whose positional digits are that code |
| `Base62.PadLeftPositional` | src/main/java/inc/skt/quicklink/util/Base62Encoder.java:48-51 | padding the numeral of an id below 62^k to k symbols gives its k low base-62 digits |
| `Base62.EncodeDecode` | src/main/java/inc/skt/quicklink/util/Base62Encoder.java:32-74 | the reverse round trip: every seven-symbol code over the alphabet decodes to an id below 62^7 that encodes back to the same code |
| `Base62.ZeroCaseIsPadding` | src/main/java/inc/skt/quicklink/util/Base62Encoder.java:34-36 | the special case for 0 gives what padding the empty numeral gives, "0000000" |
| `Base62.EncodeSingleSymbol` | src/main/java/inc/skt/quicklink/util/Base62Encoder.java:42-51 | an id below 62 is six '0' symbols followed by its own symbol |
| `Base62.EncodeSmallExamples` | src/test/java/inc/skt/quicklink/util/Base62EncoderTest.java:19-29 | 1, 15, 35 and 61 encode to 0000001, 000000f, 000000z and 000000Z |
| `Base62.EncodeTwoSymbols` | src/main/java/inc/skt/quicklink/util/Base62Encoder.java:42-51 | an id of two base-62 digits, 62 * high + low, is five '0' symbols followed by the symbols of high and low |
| `Base62.EncodeCarryExample` | src/test/java/inc/skt/quicklink/util/Base62EncoderTest.java:32-35 | 62 encodes to 0000010, with a carry into the second symbol |
| `Base62.EncodeAfterCarryExample` | src/main/java/inc/skt/quicklink/util/Base62Encoder.java:42-51 | 63 encodes to 0000011 |
| `Base62.DecodeSupplementaryExample` | src/main/java/inc/skt/quicklink/util/Base62Encoder.java:70-71 | a code made of one code point above U+FFFF decodes to -63: its two surrogate chars each add an index of -1 |
| `Base62.DecodeTops` | src/main/java/inc/skt/quicklink/util/Base62Encoder.java:65-74 | k copies of the largest symbol 'Z' decode to 62^k - 1 |
| `Base62.MaxCodeExample` | src/test/java/inc/skt/quicklink/util/Base62EncoderTest.java:38-49 | 3521614606207 encodes to ZZZZZZZ, and ZZZZZZZ decodes back to it |
| `Base62.DecodeExamples` | src/test/java/inc/skt/quicklink/util/Base62EncoderTest.java:44-48 | 0000000, 0000001, 000000f and 0000010 decode to 0, 1, 15 and 62 |
| `TokenCounter.IncrementAndGet` | src/main/java/inc/skt/quicklink/repository/InMemoryTokenRepository.java:16-21 | the returned total is the old total plus the increment, and it becomes the new total |
| `TokenCounter.WindowsAreAdjacent` | src/main/java/inc/skt/quicklink/repository/InMemoryTokenRepository.java:16-21 | successive requests own adjacent windows; the i-th total is the start plus all amounts so far |
| `TokenCounter.TotalsIncrease` | src/main/java/inc/skt/quicklink/repository/InMemoryTokenRepository.java:16-21 | with positive amounts, windows handed out from 0 never overlap, and the first ends at its own amount |
| `TokenCounter.KeyIgnored` | src/main/java/inc/skt/quicklink/repository/InMemoryTokenRepository.java:19-21 | the counter key has no effect: the same amounts under other keys give the same totals |
| `TokenService.AllocateNewRange` | src/main/java/inc/skt/quicklink/service/TokenService.java:45-49 | a refill sends incrementAndGet("global_counter", 100) and takes the window of that many ids ending at the store's total; it consumes one reply; a missing or failing reply yields no state |
| `TokenService.RefillFromCounter` | src/main/java/inc/skt/quicklink/service/TokenService.java:45-49 | answered by the in-memory counter, a refill's window runs from the counter's old total to its new total |
| `TokenService.GetNextId` | src/main/java/inc/skt/quicklink/service/TokenService.java:32-39 | the store is asked exactly when the reservation is exhausted, and then with the request ("global_counter", 100); a failed refill changes nothing; the old cursor is returned and advanced; the returned id lies in the current window; the state invariant is kept |
| `TokenService.IdsIncrease` | src/main/java/inc/skt/quicklink/service/TokenService.java:32-49 | under the counter-store contract, successive ids strictly increase and stay between the starting and final cursor; the invariant and the contract still hold afterwards |
| `TokenService.NextTwoIncrease` | src/main/java/inc/skt/quicklink/service/TokenService.java:32-39 | under the counter-store contract, two successful calls in a row return increasing ids, neither below the starting cursor |
| `TokenService.IdsDistinct` | src/test/java/inc/skt/quicklink/service/TokenServiceTest.java:103-133 | under the counter-store contract, no id is issued twice |
| `TokenService.FreshRefills` | src/main/java/inc/skt/quicklink/service/TokenService.java:18-19 | a fresh allocator satisfies the invariant, and its first call goes to the store |
| `TokenService.LargeFirstTotal` | src/test/java/inc/skt/quicklink/service/TokenServiceTest.java:135-147 | a first total of 1000000 yields the id 999900 |
| `TokenService.FailureThenRetry` | src/main/java/inc/skt/quicklink/service/TokenService.java:32-49 | a failed refill issues nothing and keeps the state, and the next call asks again and issues the new range's first id |
| `TokenService.ConsecutiveRun` | src/main/java/inc/skt/quicklink/service/TokenService.java:32-49 | against totals one range apart, calls return consecutive ids; the store is called once per 100 ids, rounded up; the final range ends 100 ids per store call after the first; the remaining totals follow on from it |
| `TokenService.FirstIdsAreSequential` | src/test/java/inc/skt/quicklink/service/TokenServiceTest.java:45-60 | three calls from an exhausted range give three consecutive ids with one store call |
| `TokenService.RangeBoundary` | src/test/java/inc/skt/quicklink/service/TokenServiceTest.java:201-219 | the 100th call still uses the first range; the 101st makes the second store call and returns the next range's first id |
| `TokenService.TwoHundredFiftyCalls` | src/test/java/inc/skt/quicklink/service/TokenServiceTest.java:82-98 | 250 calls make exactly three store calls, and the last returns the 250th id |
| `TokenService.RunSendsRefills` | src/main/java/inc/skt/quicklink/service/TokenService.java:46 | every store call of any run is incrementAndGet("global_counter", 100) |
| `TokenService.InMemoryCounterIsConsecutive` | src/main/java/inc/skt/quicklink/repository/InMemoryTokenRepository.java:16-21 | the in-memory counter, from 0, answers any sequence of 100-id requests with 100, 200, 300, and so on, which meets the counter-store contract for a fresh allocator |
| `TokenService.RunAgainstInMemoryCounter` | src/main/java/inc/skt/quicklink/repository/InMemoryTokenRepository.java:16-21 | a fresh allocator served by the in-memory counter: the counter's answers to the run's own requests are exactly the replies the run consumed, the rest is left over, and the ids are 0, 1, 2, and so on |
| `UrlMappings.Equals` | src/main/java/inc/skt/quicklink/model/UrlMapping.java:102-108 | a mapping equals itself, null is never equal, and equal mappings have equal hash codes |
| `UrlMappings.EqualsIsSameCode` | src/main/java/inc/skt/quicklink/model/UrlMapping.java:102-108 | two mappings are equal exactly when their short codes are equal, two null codes included; null is never equal |
| `UrlMappings.EqualsIsEquivalence` | src/main/java/inc/skt/quicklink/model/UrlMapping.java:102-108 | equals is reflexive, symmetric and transitive |
| `UrlMappings.ToInt32` | src/main/java/inc/skt/quicklink/model/UrlMapping.java:110-113 | 32-bit wrap-around: the result lies in the int range and is congruent to the input modulo 2^32 |
| `UrlMappings.StringHash` | src/main/java/inc/skt/quicklink/model/UrlMapping.java:112 | `String.hashCode` over the chars, h = 31 * h + c with 32-bit wrap-around, lies in the int range; one char hashes to itself |
| `UrlMappings.HashCode` | src/main/java/inc/skt/quicklink/model/UrlMapping.java:110-113 | the hash of the short code's chars lies in the int range; a null code and the empty code hash to 0 |
| `UrlMappings.HashCodeRespectsEquals` | src/main/java/inc/skt/quicklink/model/UrlMapping.java:102-113 | equal mappings have equal hash codes, whatever their other fields hold |
| `UrlRepository.FindByShortCode` | src/main/java/inc/skt/quicklink/repository/InMemoryUrlRepository.java:28-30 | the mapping stored under the code, or nothing exactly when the code is absent |
| `UrlRepository.ExistsByShortCode` | src/main/java/inc/skt/quicklink/repository/InMemoryUrlRepository.java:33-35 | a code exists exactly when findByShortCode finds it |
| `UrlRepository.Save` | src/main/java/inc/skt/quicklink/repository/InMemoryUrlRepository.java:22-25 | an upsert under the mapping's code that keeps every other entry; a null code is refused |
| `UrlRepository.SoftDelete` | src/main/java/inc/skt/quicklink/repository/InMemoryUrlRepository.java:38-43 | an existing mapping becomes inactive with its other fields kept; a missing code changes nothing; other entries are untouched |
| `UrlRepository.UpdateExpiry` | src/main/java/inc/skt/quicklink/repository/InMemoryUrlRepository.java:46-51 | an existing mapping gets the new expiry, which may be none; a missing code changes nothing; other entries are untouched |
| `UrlRepository.IncrementClickCount` | src/test/java/inc/skt/quicklink/repository/InMemoryUrlRepositoryTest.java:205-261 | an existing mapping's click count goes up by one; a missing code changes nothing; other entries are untouched |
| `UrlRepository.SoftDeleteIdempotent` | src/main/java/inc/skt/quicklink/repository/InMemoryUrlRepository.java:38-43 | soft-deleting twice is the same as soft-deleting once |
| `UrlRepository.UpdateExpiryLastWins` | src/main/java/inc/skt/quicklink/repository/InMemoryUrlRepository.java:46-51 | of two expiry updates the last one wins |
| `UrlRepository.Apply` | src/main/java/inc/skt/quicklink/repository/InMemoryUrlRepository.java:38-51 | a lifecycle update (soft delete, expiry update or click) never adds or removes a code |
| `UrlRepository.UpdatesKeepCodes` | src/main/java/inc/skt/quicklink/repository/InMemoryUrlRepository.java:38-51 | any sequence of lifecycle updates keeps the set of codes and every record under its own code; the URL, creation time, owner and custom-alias flag are kept; no click count goes down |
| `UrlRepository.RepositoryScenario` | src/test/java/inc/skt/quicklink/repository/InMemoryUrlRepositoryTest.java:23-306 | save/find/exists, soft delete keeping the record findable, unknown codes, and per-code click counters |
| `UrlService.ValidateUrl` | src/main/java/inc/skt/quicklink/service/UrlService.java:133-158 | a URL is accepted exactly when it passes all five checks; each refusal reason holds exactly when the earlier checks pass and its own fails |
| `UrlService.MatchesHttpPattern` | src/main/java/inc/skt/quicklink/service/UrlService.java:145 | `^https?://.*` on the whole string: an http:// or https:// prefix and no line terminator anywhere |
| `UrlService.IsSelfReference` | src/main/java/inc/skt/quicklink/service/UrlService.java:150 | the lowered URL contains the lowered domain with every https:// and http:// removed |
| `UrlService.IsPrivateNetworkUrl` | src/main/java/inc/skt/quicklink/service/UrlService.java:155 | the scheme pattern matches and what follows the scheme starts with localhost, 127.0.0.1, 0.0.0.0, 10., 172.16. to 172.31. or 192.168. |
| `UrlService.SchemeMatches` | src/main/java/inc/skt/quicklink/service/UrlService.java:145-155 | after http:// or https://, the scheme pattern matches exactly when no line terminator follows; the private-network pattern matches exactly when, in addition, a private host alternative comes first |
| `UrlService.SelfReferenceIsSubstring` | src/main/java/inc/skt/quicklink/service/UrlService.java:150 | the self-reference check holds exactly when the scheme-stripped, lowered domain occurs somewhere in the lowered URL |
| `UrlService.SelfReferenceIgnoresCase` | src/main/java/inc/skt/quicklink/service/UrlService.java:150 | lowering the URL or the domain first does not change the self-reference check |
| `UrlService.UpperCaseSchemeRefused` | src/main/java/inc/skt/quicklink/service/UrlService.java:145-147 | HTTP://example.com is refused for its scheme, because the pattern is case-sensitive |
| `UrlService.LineTerminatorRefused` | src/main/java/inc/skt/quicklink/service/UrlService.java:145-147 | https://a.b/ followed by a newline is refused for its scheme, because `.` does not match a line terminator |
| `UrlService.SupplementaryUrlTooLong` | src/main/java/inc/skt/quicklink/service/UrlService.java:139-142 | https://a.b/ followed by 1020 code points above U+FFFF is 1032 code points but 2052 chars, and is refused as too long |
| `UrlService.ValidateExpiry` | src/main/java/inc/skt/quicklink/service/UrlService.java:121-127 | an expiry is accepted exactly when it is absent or between 1 and 365 days inclusive |
| `UrlService.IsReservedKeyword` | src/main/java/inc/skt/quicklink/service/UrlService.java:215-222 | an alias is reserved exactly when its lower case is one of the five endpoint names |
| `UrlService.SupplementaryAliasCharacters` | src/main/java/inc/skt/quicklink/service/UrlService.java:164-178 | an alias of two code points above U+FFFF is four chars, long enough, and is refused for its characters |
| `UrlService.ZerosAliasAcceptable` | src/main/java/inc/skt/quicklink/service/UrlService.java:164-186 | 0000000 passes alias validation |
| `UrlService.ValidateCustomAlias` | src/main/java/inc/skt/quicklink/service/UrlService.java:164-186 | an alias is accepted exactly when it passes every check; each refusal holds exactly when the earlier checks pass and its own fails |
| `UrlService.EffectiveDomain` | src/main/java/inc/skt/quicklink/service/UrlService.java:58 | a non-empty base URL wins over the configured domain |
| `UrlService.ExpiryFrom` | src/main/java/inc/skt/quicklink/service/UrlService.java:88-91 | the expiry exists exactly when days are given and lies that many days of 86400 seconds after now |
| `UrlService.Record` | src/main/java/inc/skt/quicklink/service/UrlService.java:85-114 | the response carries the code, the domain + "/" + code short URL, the URL, now and the expiry; the store holds under the code an active, anonymous, unclicked record with the same values and the custom-alias flag; every other record and the allocator are untouched |
| `UrlService.CreateWithAlias` | src/main/java/inc/skt/quicklink/service/UrlService.java:67-78 | an alias format error is refused first; a valid alias is refused as taken exactly when it is stored; a refusal changes nothing; otherwise the mapping is recorded under the alias; the allocator is never used |
| `UrlService.CreateGenerated` | src/main/java/inc/skt/quicklink/service/UrlService.java:79-83 | the branch fails exactly when the allocator issues nothing, keeping the allocator's new state; otherwise the mapping is recorded under the encoding of the issued id |
| `UrlService.CreateShortUrl` | src/main/java/inc/skt/quicklink/service/UrlService.java:54-115 | fail-fast order (URL, expiry, alias format, alias taken); refusals write nothing; the alias branch never touches the allocator and never overwrites; the generated branch stores under the encoding of the allocator's next id; the stored record and the response carry the request's URL, now, the expiry and the custom-alias flag |
| `UrlService.GetOriginalUrl` | src/main/java/inc/skt/quicklink/service/UrlService.java:192-210 | not found exactly when absent; deactivated exactly when inactive, checked first; expired exactly when active with an expiry before now; otherwise the stored mapping unchanged |
| `UrlService.ContainsIffOccurs` | src/main/java/inc/skt/quicklink/service/UrlService.java:150 | the left-to-right contains scan succeeds exactly when the part occurs at some offset |
| `UrlService.ReservedIgnoresCase` | src/main/java/inc/skt/quicklink/service/UrlService.java:215-216 | lower-casing is idempotent, so an alias and its lower case are reserved alike |
| `UrlService.EmptyDomainRefusesAll` | src/main/java/inc/skt/quicklink/service/UrlService.java:30-40 | with an empty short domain, every URL that passes the scheme check is refused as self-referencing |
| `UrlService.OwnDomainRefused` | src/main/java/inc/skt/quicklink/service/UrlService.java:149-152 | with the short domain https://host, any URL under that host, with either scheme, is refused as self-referencing |
| `UrlService.Private172Range` | src/main/java/inc/skt/quicklink/service/UrlService.java:155 | the 172.x alternative of the private-network pattern covers exactly the second octets 16 to 31 |
| `UrlService.Private172Examples` | src/main/java/inc/skt/quicklink/service/UrlService.java:155 | 172.16 and 172.31 hosts are private; 172.15 and 172.32 hosts are not |
| `UrlService.PrivateHostExamples` | src/test/java/inc/skt/quicklink/service/UrlServiceTest.java:165-187 | localhost:8080, 192.168.1.1, 127.0.0.1 and 10.0.0.1 hosts match the private-network pattern |
| `UrlService.EmptyUrlExamples` | src/test/java/inc/skt/quicklink/service/UrlServiceTest.java:108-129 | a null, empty or all-space URL is refused as empty |
| `UrlService.MissingSchemeExample` | src/test/java/inc/skt/quicklink/service/UrlServiceTest.java:143-152 | ftp://example.com is refused for its scheme |
| `UrlService.AliasTooShortExample` | src/test/java/inc/skt/quicklink/service/UrlServiceTest.java:189-198 | "ab" is too short |
| `UrlService.AliasTooLongExample` | src/test/java/inc/skt/quicklink/service/UrlServiceTest.java:200-209 | 21 letters are too long |
| `UrlService.AliasCharactersExample` | src/test/java/inc/skt/quicklink/service/UrlServiceTest.java:211-220 | "my link" has a forbidden character |
| `UrlService.ReservedAliasExample` | src/test/java/inc/skt/quicklink/service/UrlServiceTest.java:222-231 | "shorten" is reserved |
| `UrlService.ReservedAnyCaseExample` | src/main/java/inc/skt/quicklink/service/UrlService.java:215-222 | "Admin" is reserved like "admin" |
| `UrlService.AcceptedAliasExample` | src/test/java/inc/skt/quicklink/service/UrlServiceTest.java:70-87 | "mylink" passes alias validation |
| `UrlService.ExpiryValidationExamples` | src/test/java/inc/skt/quicklink/service/UrlServiceTest.java:248-296 | 0 and 366 days are refused; 1, 365 and no expiry are accepted |
| `UrlService.CreatedLinkResolves` | src/main/java/inc/skt/quicklink/service/UrlService.java:88-206 | a created link resolves to its URL until its expiry passes, and forever without one; after that it is expired, never not found |
| `UrlService.AliasClaimedOnce` | src/main/java/inc/skt/quicklink/service/UrlService.java:67-78 | asking again for a claimed alias with a valid URL and expiry is refused as taken and changes nothing |
| `UrlService.EmptyAliasIsGeneratedButFlagged` | src/main/java/inc/skt/quicklink/service/UrlService.java:67-100 | an empty alias takes the generated branch, but the record is flagged as a custom alias |
| `UrlService.GeneratedCodesDiffer` | src/main/java/inc/skt/quicklink/service/UrlService.java:79-83 | under the counter-store contract, two generated links in a row get different codes |
| `UrlService.GeneratedCodeReplacesAlias` | src/main/java/inc/skt/quicklink/service/UrlService.java:67-104 | after the alias 0000000 is claimed on a fresh service, the first generated code is the same text, and its record replaces the alias record |
| `UrlService.SoftDeletedLinkIsGone` | src/main/java/inc/skt/quicklink/service/UrlService.java:198-201 | a soft-deleted link is deactivated whatever its expiry is later set to; other links resolve as before |
| `UrlService.NewExpiryRevives` | src/main/java/inc/skt/quicklink/service/UrlService.java:203-206 | an active link whose expiry is cleared, or set to now or later, resolves again |
| `UrlService.ExpiryIsInclusive` | src/main/java/inc/skt/quicklink/service/UrlService.java:203 | a link expiring at t still resolves at t and is expired at t + 1 |

## Left out

- **HTTP, cloud and analytics.** Controllers, request binding, exception-to-HTTP mapping, the analytics/SQS path, the DynamoDB repositories and the CDK infrastructure are outside the core.
- **Concurrency.** `synchronized`, `AtomicLong` and `ConcurrentHashMap` only serialise calls, and calls are modelled one after another. The race between the alias existence check and the save is therefore not modelled.
- **Clock and logging.** `System.currentTimeMillis() / 1000` is the parameter `now`. Logging has no effect on results and is dropped.
- **Shared mutable records.** The Java store hands out references, so a caller's later setter calls would show in the store. The model returns values, and only the store's own update operations change records.
- **Nullable fields.** Of the record's reference-typed fields, only the `String` field `shortCode` and the `Long` field `expiresAt` are modelled as nullable. The `String` fields `longUrl` and `userId` and the `Boolean` and `Long` fields `isActive`, `customAlias`, `createdAt` and `clickCount` are modelled as never null. The service always sets them.
- **Test-only service operations.** `updateUrl`, `deleteUrl` and `getUrlStats` are called by the service's tests, but the service source does not define them. Only `incrementClickCount` is modelled, from its repository tests, because it is a plain store update like the others.
- **deleteByShortCode.** The repository interface (src/main/java/inc/skt/quicklink/repository/UrlRepository.java:41) declares it, but the in-memory store does not implement it. The in-memory store also marks `softDelete` and `updateExpiry` as overrides, although the interface does not declare them. The model follows the in-memory store's own methods.
- **String.toLowerCase.** ASCII only; the Unicode case mapping of other letters is not modelled.
- **Default locale.** The no-argument `toLowerCase()` uses the JVM's default locale. The model assumes a locale whose ASCII case mapping is the usual one, as `Locale.ROOT` and English have it. Under a Turkish or Azerbaijani locale, `I` lowers to the dotless `ı`, so `"ADMIN"` lowers to `"admın"`. That alias would then not be reserved (UrlService.java:215-222), and the self-reference check (UrlService.java:150) would compare different text.
- **String.trim.** Modelled only through `isEmpty()`: a string is blank exactly when every character is at most U+0020.
- **Regex matching.** Not modelled in general. Only the two fixed patterns of `validateUrl` and the alias character class are written out, as the predicates `UrlService.MatchesHttpPattern`, `UrlService.IsPrivateNetworkUrl` and `UrlService.IsAliasChar`. The rows for `UrlService.SchemeMatches` and `UrlService.SelfReferenceIsSubstring` state what the two patterns and the self-reference check accept.
- **Java toString.** Not modelled.
- Base62.Encode: the id is an unbounded integer, so the model also accepts ids above `Long.MAX_VALUE`, which no Java caller can pass. `encode` only divides and takes remainders, so it has no overflow to model.
- Base62.DecodeByHorner: the Java `long` accumulator wraps on codes longer than ten chars. The model's decode is unbounded, so it is exact only where the Java value does not overflow.
- TokenService.GetNextId: the cursor and range end are unbounded integers; the `long` wrap-around after 2^63 ids is not modelled.
- UrlService.ExpiryFrom: `expiryInDays * 24L * 60L * 60L` is unbounded here. After validation it is at most 365 days, so no `long` overflow can occur in the Java either.
