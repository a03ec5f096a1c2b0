/**
 * The request scenarios of the subscriber's test suite, stated over the model:
 * app id `wx123456`, nonce `test-nonce`, timestamp `1234567890`, plugin token
 * `plugin-token`, referrer `https://servicewechat.com/wx123456/1/page-frame.html`.
 */
module HostSignScenarios {
  import opened Wrappers
  import opened HostSignCheck
  import ReferrerPattern
  import StringSort

  const AppId := "wx123456"
  /** `https://servicewechat.com/wx123456/1/page-frame.html`, put together from its parts. */
  const PluginReferrer := ReferrerPattern.Referrer('.', AppId, "1", '.', "")

  function TestAccount(): Account
  {
    Account(AppId, "plugin-token")
  }

  function TestSign(signature: string): HostSign
  {
    HostSign("test-nonce", "1234567890", signature)
  }

  /** A request with the two headers the tests set. */
  function TestRequest(hostSignText: string, referrer: string): Request
  {
    Request(map[HostSignHeader := hostSignText, ReferrerHeader := referrer])
  }

  lemma PluginReferrerAppId()
    ensures ReferrerPattern.AppIdOf(PluginReferrer) == Some(AppId)
  {
    ReferrerPattern.WellFormedReferrerAppId('.', AppId, "1", '.', "");
  }

  /** The referrer of the invalid-referrer test. */
  const InvalidReferrer := "https://invalid-url.com"

  /** Referrer `https://invalid-url.com`: logged and let through. */
  lemma InvalidReferrerScenario(hostSignText: string, accounts: map<string, Account>, php: Php)
    requires php.jsonDecode(hostSignText) == EncodeHostSign(TestSign("test-signature"))
    ensures OnRequestStart(Some(TestRequest(hostSignText, InvalidReferrer)), accounts, php)
      == Decision(Skipped(UnmatchedReferrer), None, None)
  {
    EncodeParseRoundTrip(TestSign("test-signature"));
    ReferrerPattern.ShortReferrerHasNoAppId(InvalidReferrer);
  }

  /** No account for `wx123456`: the "找不到小程序" exception, before anything is hashed. */
  lemma AccountNotFoundScenario(hostSignText: string, accounts: map<string, Account>, php: Php)
    requires php.jsonDecode(hostSignText) == EncodeHostSign(TestSign("test-signature"))
    requires AppId !in accounts
    ensures var d := OnRequestStart(Some(TestRequest(hostSignText, PluginReferrer)), accounts, php);
      && d == Decision(Thrown(UnknownMiniProgram), Some(AppId), None)
      && Message(d.outcome.failure) == "找不到小程序"
  {
    PluginReferrerAppId();
    HostRequestReachesValidation(hostSignText, PluginReferrer, TestSign("test-signature"), AppId, accounts, php);
  }

  /** `invalid-signature` is not 40 characters long, so no SHA-1 digest equals it. */
  lemma InvalidSignatureRejected(accounts: map<string, Account>, php: Php)
    requires AppId in accounts && Sha1IsHex(php)
    ensures ValidateSignature(TestSign("invalid-signature"), AppId, accounts, php).outcome == Thrown(SignatureMismatch)
  {
    var signature := "invalid-signature";
    assert |signature| == 17;
    NonDigestSignatureRejected(TestSign(signature), AppId, accounts, php);
  }

  /** Signature `invalid-signature`: the "非法请求，请检查插件配置" exception. */
  lemma InvalidSignatureScenario(hostSignText: string, accounts: map<string, Account>, php: Php)
    requires AppId in accounts
    requires Sha1IsHex(php)
    requires php.jsonDecode(hostSignText) == EncodeHostSign(TestSign("invalid-signature"))
    ensures var d := OnRequestStart(Some(TestRequest(hostSignText, PluginReferrer)), accounts, php);
      && d.outcome == Thrown(SignatureMismatch)
      && Message(d.outcome.failure) == "非法请求，请检查插件配置"
  {
    PluginReferrerAppId();
    HostRequestReachesValidation(hostSignText, PluginReferrer, TestSign("invalid-signature"), AppId, accounts, php);
    InvalidSignatureRejected(accounts, php);
  }

  /**
   * The signature the host computes, with the same comparison and the same
   * `sha1`, over the account registered for `wx123456`, passes.
   */
  lemma ValidSignatureScenario(hostSignText: string, accounts: map<string, Account>, php: Php)
    requires AppId in accounts
    requires php.jsonDecode(hostSignText) ==
      EncodeHostSign(TestSign(php.sha1(SignatureString(accounts[AppId], TestSign(""), php.sortLess))))
    ensures OnRequestStart(Some(TestRequest(hostSignText, PluginReferrer)), accounts, php).outcome == Accepted
  {
    var sign := TestSign(php.sha1(SignatureString(accounts[AppId], TestSign(""), php.sortLess)));
    PluginReferrerAppId();
    HostRequestReachesValidation(hostSignText, PluginReferrer, sign, AppId, accounts, php);
    assert SignatureList(accounts[AppId], sign) == SignatureList(accounts[AppId], TestSign(""));
  }

  /** The four test values in the order the source lists them, and in ascending byte order. */
  const TestList := ["wx123456", "test-nonce", "1234567890", "plugin-token"]
  const TestSorted := ["1234567890", "plugin-token", "test-nonce", "wx123456"]

  lemma TestValuesInByteOrder()
    ensures StringSort.Sorted(StringSort.ByteLess, TestSorted)
  {
    var sorted := TestSorted;
    forall i, j | 0 <= i < j < 4 ensures !StringSort.ByteLess(sorted[j], sorted[i]) {
      assert sorted[i][0] < sorted[j][0];
      StringSort.FirstByteDecides(sorted[j], sorted[i]);
    }
  }

  /** The test's values in the order the source lists them; the envelope's signature plays no part. */
  lemma TestSignatureList(signature: string)
    ensures SignatureList(TestAccount(), TestSign(signature)) == TestList
  {
  }

  lemma TestSortedConcat()
    ensures StringSort.Concat(TestSorted) == "1234567890plugin-tokentest-noncewx123456"
  {
    StringSort.ConcatFour("1234567890", "plugin-token", "test-nonce", "wx123456");
  }

  /**
   * In byte order the test values sort to timestamp, token, nonce, app id. PHP's
   * `sort()` agrees here: only the timestamp is a numeric string, so every
   * comparison is a string comparison.
   */
  lemma TestSignatureStringInByteOrder(signature: string)
    ensures SignatureString(TestAccount(), TestSign(signature), StringSort.ByteLess)
      == "1234567890plugin-tokentest-noncewx123456"
  {
    var list := SignatureList(TestAccount(), TestSign(signature));
    TestSignatureList(signature);
    TestValuesInByteOrder();
    assert multiset(TestSorted) == multiset(list);
    StringSort.ByteSortIs(list, TestSorted);
    TestSortedConcat();
  }

  /**
   * The full round trip of the valid-signature test: with byte order as the
   * sort comparison, a host that signs `1234567890plugin-tokentest-noncewx123456`
   * with `sha1` and sends the result from the plugin referrer is accepted.
   */
  lemma ValidSignatureRoundTrip(hostSignText: string, php: Php)
    requires php.sortLess == StringSort.ByteLess
    requires php.jsonDecode(hostSignText) ==
      EncodeHostSign(TestSign(php.sha1("1234567890plugin-tokentest-noncewx123456")))
    ensures OnRequestStart(Some(TestRequest(hostSignText, PluginReferrer)), map[AppId := TestAccount()], php)
      == Decision(Accepted, Some(AppId), Some("1234567890plugin-tokentest-noncewx123456"))
  {
    var sign := TestSign(php.sha1("1234567890plugin-tokentest-noncewx123456"));
    PluginReferrerAppId();
    HostRequestReachesValidation(hostSignText, PluginReferrer, sign, AppId, map[AppId := TestAccount()], php);
    TestSignatureStringInByteOrder(sign.signature);
  }
}
