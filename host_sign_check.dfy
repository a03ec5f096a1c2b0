/**
 * The WeChat mini-program plugin "host sign" check run at the start of every
 * JSON-RPC request (HostSignCheckSubscriber).
 *
 * A plugin request carries an `X-WECHAT-HOSTSIGN` header holding the JSON
 * object `{"noncestr": ..., "timestamp": ..., "signature": ...}` and a
 * `referrer` header naming the host mini-program's app id. The check looks up
 * that app id's account, sorts [appId, noncestr, timestamp, pluginToken],
 * concatenates them and requires `signature` to be the SHA-1 hex digest of the
 * result. Requests without the header, or with a malformed header or
 * referrer, are let through after a log line; an unknown app id or a wrong
 * signature raise `HostSignValidationException`.
 *
 * The PHP built-ins the check relies on (`Json::decode`, `sha1`, and the
 * comparison `sort()` uses) are fields of `Php`; the account repository is a
 * map from the app id it is queried with to the account it returns.
 */
module HostSignCheck {
  import opened Wrappers
  import opened PhpValue
  import ReferrerPattern
  import StringSort

  /** Header names as the request's header bag stores them (lower case). */
  const HostSignHeader := "x-wechat-hostsign"
  const ReferrerHeader := "referrer"

  /** The request's headers: normalised name to first value. */
  datatype Request = Request(headers: map<string, string>)

  /** The decoded `X-WECHAT-HOSTSIGN` header. */
  datatype HostSign = HostSign(nonceStr: string, timestamp: string, signature: string)

  /** The two account attributes the check reads. */
  datatype Account = Account(appId: string, pluginToken: string)

  datatype Php = Php(
    jsonDecode: string -> Value,
    sha1: string -> string,
    sortLess: (string, string) -> bool)

  /** Why the check returned without verifying anything (the log line it wrote, if any). */
  datatype SkipReason = NoRequest | NoHostSign | MalformedHostSign | MissingReferrer | UnmatchedReferrer

  /** The two `HostSignValidationException`s. */
  datatype Failure = UnknownMiniProgram | SignatureMismatch

  datatype Outcome = Skipped(reason: SkipReason) | Accepted | Thrown(failure: Failure)

  /**
   * What one run of the check did: how it ended, the app id it asked the
   * repository for, and the string it handed to `sha1`.
   */
  datatype Decision = Decision(outcome: Outcome, lookedUp: Option<string>, hashed: Option<string>)

  /** The exception message. */
  function Message(f: Failure): string
  {
    match f
    case UnknownMiniProgram => "找不到小程序"
    case SignatureMismatch => "非法请求，请检查插件配置"
  }

  /**
   * `$v[$key]` exists and is a string. This is the condition the envelope check
   * amounts to, stated without PHP's two separate tests; HasStringFieldIsSetString
   * shows it is `isset` followed by `is_string`.
   */
  predicate HasStringField(v: Value, key: string)
  {
    v.Array? && StrKey(key) in v.entries && v.entries[StrKey(key)].Str?
  }

  /** A string is never null, so `isset` then `is_string` is the same as "holds a string". */
  lemma HasStringFieldIsSetString(v: Value, key: string)
    ensures HasStringField(v, key) <==> IsSet(v, key) && IsStringAt(v, key)
  {
  }

  /** The envelope check on the decoded header. */
  function ParseHostSign(data: Value): (r: Option<HostSign>)
    ensures r.Some? <==>
      HasStringField(data, "noncestr") && HasStringField(data, "timestamp") && HasStringField(data, "signature")
    ensures r.Some? ==>
      && data.entries[StrKey("noncestr")] == Str(r.value.nonceStr)
      && data.entries[StrKey("timestamp")] == Str(r.value.timestamp)
      && data.entries[StrKey("signature")] == Str(r.value.signature)
  {
    if !data.Array?
      || !(IsSet(data, "noncestr") && IsSet(data, "timestamp") && IsSet(data, "signature"))
      || !IsStringAt(data, "noncestr")
      || !IsStringAt(data, "timestamp")
      || !IsStringAt(data, "signature")
    then None
    else Some(HostSign(
      data.entries[StrKey("noncestr")].s,
      data.entries[StrKey("timestamp")].s,
      data.entries[StrKey("signature")].s))
  }

  /** The array a host builds and JSON-encodes into the header. */
  function EncodeHostSign(h: HostSign): Value
  {
    Array(map[
      StrKey("noncestr") := Str(h.nonceStr),
      StrKey("timestamp") := Str(h.timestamp),
      StrKey("signature") := Str(h.signature)])
  }

  /** The app id named by the `referrer` header, or the reason there is none. */
  function ExtractAppIdFromReferrer(request: Request): (r: Result<string, SkipReason>)
    ensures r.Failure? ==> r.error == MissingReferrer || r.error == UnmatchedReferrer
    ensures r.Failure? ==> (r.error == MissingReferrer <==> ReferrerHeader !in request.headers)
    ensures r.Success? <==>
      ReferrerHeader in request.headers
      && exists m :: ReferrerPattern.IsReported(request.headers[ReferrerHeader], m)
    ensures r.Success? ==>
      exists m :: ReferrerPattern.IsReported(request.headers[ReferrerHeader], m)
        && ReferrerPattern.GroupOne(request.headers[ReferrerHeader], m) == r.value
  {
    if ReferrerHeader !in request.headers then Failure(MissingReferrer)
    else
      var referrer := request.headers[ReferrerHeader];
      match ReferrerPattern.PregMatch(referrer)
      case None => Failure(UnmatchedReferrer)
      case Some(m) => Success(ReferrerPattern.GroupOne(referrer, m))
  }

  /** The four values the signature covers, in the order the source lists them. */
  function SignatureList(account: Account, sign: HostSign): seq<string>
  {
    [account.appId, sign.nonceStr, sign.timestamp, account.pluginToken]
  }

  /** `implode('', sort($list))` over the four values. */
  function SignatureString(account: Account, sign: HostSign, less: (string, string) -> bool): string
  {
    StringSort.Concat(StringSort.Sort(SignatureList(account, sign), less))
  }

  /** Looks up the account and compares the supplied signature with the one recomputed. */
  function ValidateSignature(sign: HostSign, appId: string, accounts: map<string, Account>, php: Php): (d: Decision)
    ensures d.lookedUp == Some(appId)
    ensures d.outcome.Accepted? || d.outcome.Thrown?
    ensures d.outcome == Thrown(UnknownMiniProgram) <==> appId !in accounts
    ensures d.hashed.Some? <==> appId in accounts
    ensures appId in accounts ==>
      && d.hashed == Some(SignatureString(accounts[appId], sign, php.sortLess))
      && (d.outcome == Accepted <==> sign.signature == php.sha1(d.hashed.value))
  {
    if appId !in accounts then Decision(Thrown(UnknownMiniProgram), Some(appId), None)
    else
      var account := accounts[appId];
      var signatureString := SignatureString(account, sign, php.sortLess);
      var serverSign := php.sha1(signatureString);
      if sign.signature != serverSign then Decision(Thrown(SignatureMismatch), Some(appId), Some(signatureString))
      else Decision(Accepted, Some(appId), Some(signatureString))
  }

  /** The whole check, from the event's request to its outcome. */
  function OnRequestStart(request: Option<Request>, accounts: map<string, Account>, php: Php): (d: Decision)
    ensures d.outcome.Skipped? <==> d.lookedUp.None?
    ensures d.lookedUp.Some? ==>
      && request.Some?
      && HostSignHeader in request.value.headers
      && ParseHostSign(php.jsonDecode(request.value.headers[HostSignHeader])).Some?
      && ExtractAppIdFromReferrer(request.value) == Success(d.lookedUp.value)
    ensures d.hashed.Some? ==> d.lookedUp.Some? && d.lookedUp.value in accounts
  {
    if request.None? then Decision(Skipped(NoRequest), None, None)
    else
      var headers := request.value.headers;
      if HostSignHeader !in headers then Decision(Skipped(NoHostSign), None, None)
      else
        match ParseHostSign(php.jsonDecode(headers[HostSignHeader]))
        case None => Decision(Skipped(MalformedHostSign), None, None)
        case Some(sign) =>
          match ExtractAppIdFromReferrer(request.value)
          case Failure(reason) => Decision(Skipped(reason), None, None)
          case Success(appId) => ValidateSignature(sign, appId, accounts, php)
  }

  // ---------------------------------------------------------------------------
  // Properties
  // ---------------------------------------------------------------------------

  /** The header a host sends decodes back to the envelope it encoded. */
  lemma EncodeParseRoundTrip(h: HostSign)
    ensures ParseHostSign(EncodeHostSign(h)) == Some(h)
  {
    var v := EncodeHostSign(h);
    assert v.entries[StrKey("noncestr")] == Str(h.nonceStr);
    assert v.entries[StrKey("timestamp")] == Str(h.timestamp);
    assert v.entries[StrKey("signature")] == Str(h.signature);
  }

  /** No request, or no `X-WECHAT-HOSTSIGN` header: return without touching the repository. */
  lemma SkipWithoutHostSign(request: Option<Request>, accounts: map<string, Account>, php: Php)
    requires request.None? || HostSignHeader !in request.value.headers
    ensures OnRequestStart(request, accounts, php) == Decision(Skipped(if request.None? then NoRequest else NoHostSign), None, None)
  {
  }

  /**
   * A header that does not decode to an array with string fields `noncestr`,
   * `timestamp` and `signature` (missing, null, or another type) is logged and
   * let through, without a lookup or an exception.
   */
  lemma SkipOnMalformedHostSign(request: Request, accounts: map<string, Account>, php: Php, key: string)
    requires HostSignHeader in request.headers
    requires key in ["noncestr", "timestamp", "signature"]
    requires !HasStringField(php.jsonDecode(request.headers[HostSignHeader]), key)
    ensures OnRequestStart(Some(request), accounts, php) == Decision(Skipped(MalformedHostSign), None, None)
  {
  }

  /**
   * With a well-formed header but a missing `referrer`, or one the pattern does
   * not match, the check logs and returns: no lookup, no exception.
   */
  lemma SkipOnBadReferrer(request: Request, sign: HostSign, accounts: map<string, Account>, php: Php)
    requires HostSignHeader in request.headers
    requires ParseHostSign(php.jsonDecode(request.headers[HostSignHeader])) == Some(sign)
    requires ReferrerHeader in request.headers ==>
      forall m :: !ReferrerPattern.Matches(request.headers[ReferrerHeader], m)
    ensures OnRequestStart(Some(request), accounts, php) ==
      Decision(Skipped(if ReferrerHeader in request.headers then UnmatchedReferrer else MissingReferrer), None, None)
  {
  }

  /**
   * Exceptions come only from the two checks that follow a successful app id
   * extraction; every earlier failure is a silent return.
   */
  lemma ThrowsOnlyAfterAppId(request: Option<Request>, accounts: map<string, Account>, php: Php)
    ensures var d := OnRequestStart(request, accounts, php);
      d.outcome.Thrown? ==>
        && request.Some?
        && ExtractAppIdFromReferrer(request.value).Success?
        && d.lookedUp == Some(ExtractAppIdFromReferrer(request.value).value)
        && (d.outcome.failure == UnknownMiniProgram <==> d.lookedUp.value !in accounts)
  {
  }

  /**
   * Once the header decodes to an envelope and the referrer yields an app id,
   * the outcome is that of the signature validation for that app id.
   */
  lemma ReachesValidation(request: Request, sign: HostSign, appId: string, accounts: map<string, Account>, php: Php)
    requires HostSignHeader in request.headers
    requires ParseHostSign(php.jsonDecode(request.headers[HostSignHeader])) == Some(sign)
    requires ExtractAppIdFromReferrer(request) == Success(appId)
    ensures OnRequestStart(Some(request), accounts, php) == ValidateSignature(sign, appId, accounts, php)
  {
  }

  /**
   * A request carrying the two headers a host sends: the encoded envelope and a
   * referrer naming `appId`. The outcome is that of validating the envelope for
   * `appId`.
   */
  lemma HostRequestReachesValidation(
    hostSignText: string, referrer: string, sign: HostSign, appId: string, accounts: map<string, Account>, php: Php)
    requires php.jsonDecode(hostSignText) == EncodeHostSign(sign)
    requires ReferrerPattern.AppIdOf(referrer) == Some(appId)
    ensures OnRequestStart(Some(Request(map[HostSignHeader := hostSignText, ReferrerHeader := referrer])), accounts, php)
      == ValidateSignature(sign, appId, accounts, php)
  {
    var request := Request(map[HostSignHeader := hostSignText, ReferrerHeader := referrer]);
    EncodeParseRoundTrip(sign);
    assert request.headers[HostSignHeader] == hostSignText;
    assert request.headers[ReferrerHeader] == referrer;
    ReachesValidation(request, sign, appId, accounts, php);
  }

  /** Signatures are lower-case SHA-1 hex digests: 40 characters from 0-9a-f. */
  predicate IsHexDigest(s: string)
  {
    |s| == 40 && forall c | c in s :: c in "0123456789abcdef"
  }

  /** `php.sha1` returns lower-case hex digests, as PHP `sha1` does. */
  ghost predicate Sha1IsHex(php: Php)
  {
    forall s :: IsHexDigest(php.sha1(s))
  }

  /** The sorted list is in ascending order and holds exactly the four values. */
  lemma SignatureListSorted(account: Account, sign: HostSign, less: (string, string) -> bool)
    requires StringSort.StrictTotalOn(less, multiset(SignatureList(account, sign)))
    ensures var sorted := StringSort.Sort(SignatureList(account, sign), less);
      StringSort.Sorted(less, sorted) && multiset(sorted) == multiset(SignatureList(account, sign))
  {
    StringSort.SortSorted(SignatureList(account, sign), less);
  }

  /** The signature string does not depend on the order the four values are listed in. */
  lemma SignatureStringOrderFree(account: Account, sign: HostSign, listed: seq<string>, less: (string, string) -> bool)
    requires multiset(listed) == multiset(SignatureList(account, sign))
    requires StringSort.StrictTotalOn(less, multiset(listed))
    ensures StringSort.Concat(StringSort.Sort(listed, less)) == SignatureString(account, sign, less)
  {
    StringSort.SortPermutationInvariant(listed, SignatureList(account, sign), less);
  }

  /**
   * The signing rule, stated without reference to a sorting algorithm: the
   * signature is the hash of the four values joined in ascending order.
   */
  ghost predicate SignedBy(signature: string, account: Account, sign: HostSign, php: Php)
  {
    exists arrangement: seq<string> ::
      && multiset(arrangement) == multiset(SignatureList(account, sign))
      && StringSort.Sorted(php.sortLess, arrangement)
      && signature == php.sha1(StringSort.Concat(arrangement))
  }

  /**
   * For an account that exists, the check passes exactly when the supplied
   * signature follows the signing rule; otherwise it throws the mismatch error.
   */
  lemma ValidateSignatureMeetsRule(sign: HostSign, appId: string, accounts: map<string, Account>, php: Php)
    requires appId in accounts
    requires StringSort.StrictTotalOn(php.sortLess, multiset(SignatureList(accounts[appId], sign)))
    ensures var d := ValidateSignature(sign, appId, accounts, php);
      && (d.outcome == Accepted <==> SignedBy(sign.signature, accounts[appId], sign, php))
      && (d.outcome != Accepted ==> d.outcome == Thrown(SignatureMismatch))
  {
    var account := accounts[appId];
    var list := SignatureList(account, sign);
    var sorted := StringSort.Sort(list, php.sortLess);
    StringSort.SortSorted(list, php.sortLess);
    if SignedBy(sign.signature, account, sign, php) {
      var arrangement :| && multiset(arrangement) == multiset(list)
                         && StringSort.Sorted(php.sortLess, arrangement)
                         && sign.signature == php.sha1(StringSort.Concat(arrangement));
      StringSort.SortedUnique(arrangement, sorted, php.sortLess);
    }
  }

  /**
   * The referrer `https://servicewechat.com/ID/V/page-frame.html`, with ID free
   * of slashes and newlines and V free of newlines, sends the check to the
   * repository with key ID.
   */
  lemma LookupUsesReferrerAppId(
    request: Request, sign: HostSign, id: string, version: string, accounts: map<string, Account>, php: Php)
    requires HostSignHeader in request.headers
    requires ParseHostSign(php.jsonDecode(request.headers[HostSignHeader])) == Some(sign)
    requires forall c | c in id :: c != '/' && c != '\n'
    requires forall c | c in version :: c != '\n'
    requires ReferrerHeader in request.headers
    requires request.headers[ReferrerHeader] == ReferrerPattern.Referrer('.', id, version, '.', "")
    ensures OnRequestStart(Some(request), accounts, php).lookedUp == Some(id)
    ensures id !in accounts ==>
      OnRequestStart(Some(request), accounts, php) == Decision(Thrown(UnknownMiniProgram), Some(id), None)
  {
    ReferrerPattern.WellFormedReferrerAppId('.', id, version, '.', "");
  }

  /**
   * When the account exists, a signature that is not a lower-case 40-digit hex
   * string (such as `invalid-signature`) is always rejected.
   */
  lemma NonDigestSignatureRejected(sign: HostSign, appId: string, accounts: map<string, Account>, php: Php)
    requires Sha1IsHex(php)
    requires appId in accounts
    requires !IsHexDigest(sign.signature)
    ensures ValidateSignature(sign, appId, accounts, php).outcome == Thrown(SignatureMismatch)
  {
    var s := SignatureString(accounts[appId], sign, php.sortLess);
    assert IsHexDigest(php.sha1(s));
  }
}
