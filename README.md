# WeChat mini-program plugin host-sign check, in Dafny

This project models the request check of `HostSignCheckSubscriber` in the
WeChat mini-program plugin bundle. The check runs at the start of every
JSON-RPC request.

- A request without the `X-WECHAT-HOSTSIGN` header is not a plugin request, and the check lets it through.
- A request with the header must carry the decoded envelope
  `{"noncestr", "timestamp", "signature"}`. It must also carry a `referrer` header of the form
  `https://servicewechat.com/<app id>/<version>/page-frame.html`.
- The check looks up the account for that app id.
- It sorts the account's app id, the nonce, the timestamp and the account's plugin token, and joins them with no separator.
- It requires `signature` to equal the SHA-1 hex digest of that string.
- An unknown app id raises `HostSignValidationException("找不到小程序")`.
- A wrong signature raises `HostSignValidationException("非法请求，请检查插件配置")`.
- A malformed envelope or a missing or unmatched referrer is logged and let through.

The model is made of pure functions and lemmas, because the source makes a single decision over its inputs.

- `HostSignCheck.OnRequestStart` returns a `Decision`. It records how the check ended (skipped with a reason, accepted, or one of the two exceptions). It also records the app id the account repository was queried with and the string handed to `sha1`. This makes "no lookup" and "nothing hashed" statable.
- The PHP library calls the check relies on are fields of a `Php` value: `Json::decode`, `sha1`, and the comparison `sort()` uses.
- The account repository is a map from the queried app id to the account it returns.
- `ReferrerPattern` gives the referrer regex
  `@https://servicewechat.com/(.*?)/(.*?)/page-frame.html@` its PCRE meaning.
  - The pattern is unanchored, so the leftmost start wins.
  - Both groups are lazy, so group 1 is as short as possible, then group 2.
  - The two unescaped dots match any character but a newline.
  - The model states these rules declaratively (`Matches`, `IsReported`), implements them as a search (`PregMatch`), and proves that the two agree.
- `StringSort` is an insertion sort over a comparison parameter. It proves that, under a strict total order, there is exactly one ascending arrangement of a list. So any correct sort, PHP's included, gives the same signature string.

A missing or unmatched `referrer` is not an error. The code logs a warning
("请求不合法") and returns normally (lines 62-66 and 73-91 of the subscriber), as
it does for a malformed envelope. The model calls all of these outcomes
`Skipped`; `HostSignCheck.SkipOnBadReferrer` states the referrer case.

A byte-wise sort would differ from PHP `sort()`, which compares two numeric
strings as numbers. The model follows the code and takes the comparison as a
parameter (see "Left out"). For the test values byte order gives the same list
(`HostSignScenarios.TestSignatureStringInByteOrder`).

The code reads the header `referrer`, not HTTP's `Referer`, and the model does the same.

## Model

| member | source | states |
|---|---|---|
| HostSignCheck.OnRequestStart | src/EventSubscriber/HostSignCheckSubscriber.php:30-69 | the check is skipped exactly when no account lookup happens; a lookup happens only for a present request whose header decodes to a valid envelope and whose referrer yields that app id; a string is hashed only after the lookup found an account |
| HostSignCheck.ParseHostSign | src/EventSubscriber/HostSignCheckSubscriber.php:47-60 | the envelope is accepted exactly when the decoded value is an array whose `noncestr`, `timestamp` and `signature` are set and are strings (a null counts as missing), and the fields it returns are those strings |
| HostSignCheck.HasStringFieldIsSetString | src/EventSubscriber/HostSignCheckSubscriber.php:50-53 | "holds a string at this key" is the same as `isset` followed by `is_string`, because a string is never null; `ParseHostSign` is stated with the former |
| PhpValue.IsSet | src/EventSubscriber/HostSignCheckSubscriber.php:50 | definition of `isset($v[$key])`: `$v` is an array holding the key and the value there is not null; `HasStringFieldIsSetString` and `ParseHostSign` pin it down |
| PhpValue.IsStringAt | src/EventSubscriber/HostSignCheckSubscriber.php:51-53 | definition of `is_string($v[$key])` once the key is set; `HasStringFieldIsSetString` and `ParseHostSign` pin it down |
| HostSignCheck.HasStringField | src/EventSubscriber/HostSignCheckSubscriber.php:48-53 | definition: the decoded value is an array and holds a string at the key; `HasStringFieldIsSetString` ties it to the two PHP tests |
| HostSignCheck.EncodeParseRoundTrip | src/EventSubscriber/HostSignCheckSubscriber.php:47-53 | the array a host encodes into the header passes the envelope check and gives back the same three fields |
| HostSignCheck.ExtractAppIdFromReferrer | src/EventSubscriber/HostSignCheckSubscriber.php:71-94 | a missing `referrer` and an unmatched one are the only failures and are told apart; on success the app id is group 1 of the match `preg_match` reports, and success happens exactly when such a match exists |
| HostSignCheck.ValidateSignature | src/EventSubscriber/HostSignCheckSubscriber.php:99-125 | the repository is queried with the app id; an unknown app id throws "找不到小程序" before anything is hashed; otherwise the hashed string is the sorted, concatenated four values, and the check passes exactly when the supplied signature equals `sha1` of it |
| HostSignCheck.Message | src/EventSubscriber/HostSignCheckSubscriber.php:103-123 | definition: the two exception messages, "找不到小程序" (line 103) and "非法请求，请检查插件配置" (line 123); `AccountNotFoundScenario` and `InvalidSignatureScenario` pin them to the outcomes |
| HostSignCheck.SignatureList | src/EventSubscriber/HostSignCheckSubscriber.php:106-111 | definition: [account app id, noncestr, timestamp, plugin token] in the source's order; `SignatureListSorted` and `SignatureStringOrderFree` pin down what sorting it yields |
| HostSignCheck.SignatureString | src/EventSubscriber/HostSignCheckSubscriber.php:112-113 | definition: `implode('', sort($list))`; `ValidateSignatureMeetsRule` shows it is the four values joined in their one ascending order, and `SignatureStringOrderFree` that listing order does not matter |
| HostSignCheck.SkipWithoutHostSign | src/EventSubscriber/HostSignCheckSubscriber.php:33-45 | no request, or no `X-WECHAT-HOSTSIGN` header: a normal return with no lookup and nothing hashed |
| HostSignCheck.SkipOnMalformedHostSign | src/EventSubscriber/HostSignCheckSubscriber.php:47-60 | if any of the three fields is missing, null or not a string, or the decoded value is not an array, the check returns normally with no lookup |
| HostSignCheck.SkipOnBadReferrer | src/EventSubscriber/HostSignCheckSubscriber.php:62-91 | with a valid envelope, a missing referrer or one the pattern cannot match gives a normal return with no lookup and no exception |
| HostSignCheck.ThrowsOnlyAfterAppId | src/EventSubscriber/HostSignCheckSubscriber.php:33-124 | an exception implies a request whose referrer yielded an app id, the lookup used that app id, and the exception is "找不到小程序" exactly when no account has it |
| HostSignCheck.ReachesValidation | src/EventSubscriber/HostSignCheckSubscriber.php:62-68 | a valid envelope plus an extracted app id hands the decision to signature validation for that app id |
| HostSignCheck.HostRequestReachesValidation | src/EventSubscriber/HostSignCheckSubscriber.php:38-68 | a request carrying an encoded envelope and a referrer naming an app id is decided by signature validation for that envelope and app id |
| HostSignCheck.LookupUsesReferrerAppId | src/EventSubscriber/HostSignCheckSubscriber.php:83-104 | for a referrer `https://servicewechat.com/ID/V/page-frame.html`, with no slash or newline in ID and no newline in V, the repository is queried with key ID; an unknown ID throws "找不到小程序" with nothing hashed |
| HostSignCheck.SignatureListSorted | src/EventSubscriber/HostSignCheckSubscriber.php:106-112 | under a strict total order, the sorted list is ascending and a permutation of [account app id, nonce, timestamp, plugin token] |
| HostSignCheck.SignatureStringOrderFree | src/EventSubscriber/HostSignCheckSubscriber.php:106-113 | the signature string is the same whatever order the four values are listed in |
| HostSignCheck.ValidateSignatureMeetsRule | src/EventSubscriber/HostSignCheckSubscriber.php:106-124 | for an existing account, the check passes exactly when the signature is `sha1` of the four values joined in ascending order (a rule stated without any sorting algorithm); otherwise it throws "非法请求，请检查插件配置" |
| HostSignCheck.NonDigestSignatureRejected | src/EventSubscriber/HostSignCheckSubscriber.php:114-124 | since `sha1` returns 40 lower-case hex digits, a signature of any other shape is always rejected for an existing account |
| ReferrerPattern.PregMatch | src/EventSubscriber/HostSignCheckSubscriber.php:83-84 | the search reports a match exactly when one exists, and the match it reports comes first in PCRE's trial order (leftmost start, shortest group 1, shortest group 2) |
| ReferrerPattern.Matches | src/EventSubscriber/HostSignCheckSubscriber.php:83 | definition of one way the pattern matches: scheme and host with a wildcard dot, group 1 free of newlines, a slash, group 2 free of newlines, and `/page-frame.html` with a wildcard dot; `PregMatch` and `WellFormedReferrerAppId` pin it down |
| ReferrerPattern.IsReported | src/EventSubscriber/HostSignCheckSubscriber.php:84 | definition of the match `preg_match` reports: a match that comes no later in PCRE's trial order than any other; `PregMatchIsFirst` shows the search finds exactly it |
| ReferrerPattern.AppIdOf | src/EventSubscriber/HostSignCheckSubscriber.php:84-93 | `$matches[1]`: there is an app id exactly when the pattern matches somewhere, and it is group 1 of the reported match |
| ReferrerPattern.PregMatchIsFirst | src/EventSubscriber/HostSignCheckSubscriber.php:83-84 | the reported match is exactly the match that comes first in the trial order |
| ReferrerPattern.FindVersionEnd | src/EventSubscriber/HostSignCheckSubscriber.php:83 | lazy group 2 ends at the first position where `/page-frame.html` follows without crossing a newline, or nowhere if no such position exists |
| ReferrerPattern.MatchFrom | src/EventSubscriber/HostSignCheckSubscriber.php:83 | lazy group 1 closes at the first slash after which group 2 can end, and no later |
| ReferrerPattern.MatchAt | src/EventSubscriber/HostSignCheckSubscriber.php:83 | the attempt anchored at one start returns the first-tried match starting there, and none exactly when no match starts there |
| ReferrerPattern.SearchFrom | src/EventSubscriber/HostSignCheckSubscriber.php:84 | the unanchored search returns the leftmost-starting match, or none when no match starts at or after the position |
| ReferrerPattern.WellFormedReferrerAppId | src/EventSubscriber/HostSignCheckSubscriber.php:83-93 | from `https://servicewechat.com/ID/V/page-frame.html` followed by anything, with any non-newline characters at the two dots, no slash or newline in ID and no newline in V, the app id extracted is ID |
| ReferrerPattern.ShortReferrerHasNoAppId | src/EventSubscriber/HostSignCheckSubscriber.php:83-91 | a referrer shorter than 43 characters never matches |
| ReferrerPattern.MatchesShift | src/EventSubscriber/HostSignCheckSubscriber.php:83 | placing text in front of a referrer moves its matches by that length and changes nothing else |
| ReferrerPattern.UnanchoredPrefix | src/EventSubscriber/HostSignCheckSubscriber.php:83-93 | the pattern is not anchored: text without an `h` placed in front of a referrer leaves the extracted app id unchanged |
| StringSort.Sort | src/EventSubscriber/HostSignCheckSubscriber.php:112 | sorting returns a permutation of its input |
| StringSort.Insert | src/EventSubscriber/HostSignCheckSubscriber.php:112 | inserting one value into a list gives a permutation of the list plus that value |
| StringSort.SortSorted | src/EventSubscriber/HostSignCheckSubscriber.php:112 | under a strict total order, the result of sorting is ascending |
| StringSort.SortedUnique | src/EventSubscriber/HostSignCheckSubscriber.php:112 | two ascending arrangements of the same values are equal, so the result does not depend on the sorting algorithm |
| StringSort.SortPermutationInvariant | src/EventSubscriber/HostSignCheckSubscriber.php:112 | lists holding the same values sort to the same list |
| StringSort.ByteLessStrictTotal | src/EventSubscriber/HostSignCheckSubscriber.php:112 | byte-wise string order (the order `sort()` uses for non-numeric strings) is a strict total order |
| StringSort.ByteSortIs | src/EventSubscriber/HostSignCheckSubscriber.php:112 | sorting in byte order gives the one ascending arrangement of the values |
| StringSort.ConcatFour | src/EventSubscriber/HostSignCheckSubscriber.php:113 | `implode('', ...)` of four strings is their concatenation in order |
| StringSort.Concat | src/EventSubscriber/HostSignCheckSubscriber.php:113 | definition of `implode('', $parts)`; `ConcatFour` pins it down for the four-element list the check joins |
| HostSignScenarios.PluginReferrerAppId | tests/EventSubscriber/HostSignCheckSubscriberTest.php:128-129 | the test referrer `https://servicewechat.com/wx123456/1/page-frame.html` yields app id `wx123456` |
| HostSignScenarios.InvalidReferrerScenario | tests/EventSubscriber/HostSignCheckSubscriberTest.php:72-104 | referrer `https://invalid-url.com` with a valid envelope: a normal return with no lookup |
| HostSignScenarios.AccountNotFoundScenario | tests/EventSubscriber/HostSignCheckSubscriberTest.php:106-144 | no account for `wx123456`: the exception "找不到小程序", with the lookup made and nothing hashed |
| HostSignScenarios.InvalidSignatureScenario | tests/EventSubscriber/HostSignCheckSubscriberTest.php:146-188 | signature `invalid-signature` from the test referrer, with an account registered under `wx123456`: the exception "非法请求，请检查插件配置" |
| HostSignScenarios.InvalidSignatureRejected | tests/EventSubscriber/HostSignCheckSubscriberTest.php:161-187 | `invalid-signature` is 17 characters long, so for an existing account it is a signature mismatch whatever `sha1` returns |
| HostSignScenarios.ValidSignatureScenario | tests/EventSubscriber/HostSignCheckSubscriberTest.php:190-246 | for any account registered under `wx123456`, the signature computed with the same sort and the same `sha1` over its values is accepted |
| HostSignScenarios.TestSignatureStringInByteOrder | tests/EventSubscriber/HostSignCheckSubscriberTest.php:199-202 | in byte order the test's four values join to `1234567890plugin-tokentest-noncewx123456` |
| HostSignScenarios.TestValuesInByteOrder | tests/EventSubscriber/HostSignCheckSubscriberTest.php:199-200 | `1234567890`, `plugin-token`, `test-nonce`, `wx123456` are in ascending byte order |
| HostSignScenarios.TestSignatureList | tests/EventSubscriber/HostSignCheckSubscriberTest.php:199 | the test account and envelope give the list [`wx123456`, `test-nonce`, `1234567890`, `plugin-token`] |
| HostSignScenarios.TestSortedConcat | tests/EventSubscriber/HostSignCheckSubscriberTest.php:201 | the sorted test values join to `1234567890plugin-tokentest-noncewx123456` |
| HostSignScenarios.ValidSignatureRoundTrip | tests/EventSubscriber/HostSignCheckSubscriberTest.php:190-246 | with byte order as the comparison, a request from the test referrer whose signature is `sha1("1234567890plugin-tokentest-noncewx123456")` is accepted, after a lookup of `wx123456` and with exactly that string hashed |

## Left out

- `Json::decode` (line 47) is a parameter. Its exception on text that is not valid JSON is not modelled, because the decoder's source is not part of this model.
- `sha1` (line 114) is a parameter. `Sha1IsHex` assumes only that it returns 40 lower-case hex characters; the SHA-1 compression function itself is not modelled.
- HostSignCheck.ValidateSignatureMeetsRule, SignatureListSorted and SignatureStringOrderFree require the comparison to be a strict total order on the four values. PHP's `SORT_REGULAR` compares two numeric strings as numbers, so values such as `"1e3"` and `"1000"` compare equal. For such inputs the PHP result depends on its sort algorithm; the model states nothing about them.
- `StringSort.Sort` is an insertion sort, not PHP's hybrid sort. The two agree whenever the comparison is a strict total order on the values (`StringSort.SortedUnique`).
- Symfony's `HeaderBag` is a map from lower-cased header names to the first value. Case folding of names and headers that repeat are not modelled.
- Logger calls (lines 40, 55, 75, 85 and 116-120) only write diagnostics. The model keeps just the reason the check returned early.
- `AccountRepository::findOneBy` is a map lookup. Persistence, database collation and repositories that return different accounts over time are not modelled.
- An `Account` whose `getPluginToken()` returns null is not modelled. The plugin token is a string.
- PCRE resource limits are not modelled. Those are the backtracking and recursion limits that make `preg_match` return `false`.
- Characters stand for bytes. Multi-byte UTF-8 handling is not modelled, because the pattern has no `u` flag.
- The `HostSignValidationException` class, its code and its stack trace are not modelled. Only the two messages are (`HostSignCheck.Message`).
- Framework types are replaced by an optional header map. These are `RequestStartEvent`, `Request` and the DI registration in `src/WechatMiniProgramPluginBundle.php` and `src/DependencyInjection/WechatMiniProgramPluginExtension.php`.
- The signature comparison is PHP `!==` on strings. Its timing is not modelled.
