/**
 * The records of pkg/models that the core reads and writes: campaigns
 * ("phishlets") with their proxy hosts, and captured sessions.
 */
module Models {

  /** A `time.Time`, as nanoseconds since the Unix epoch. */
  type Time = int

  const NanosPerSecond: int := 1_000_000_000

  /** Go's zero `time.Time` (1 January of year 1, UTC): what `IsZero` tests for. */
  const ZeroTime: Time := -62135596800 * NanosPerSecond

  /** One front-host/origin-host pair of a campaign. */
  datatype ProxyHost = ProxyHost(
    phishSubdomain: string,
    origSubdomain: string,
    domain: string,
    handleSession: bool,
    isLanding: bool,
    autoFilter: bool)

  /** A campaign. Only the fields the core reads are kept. */
  datatype Phishlet = Phishlet(
    name: string,
    author: string,
    version: string,
    redirectURL: string,
    isTemplate: bool,
    isEnabled: bool,
    hostname: string,
    proxyHosts: seq<ProxyHost>,
    createTime: Time,
    updateTime: Time)

  datatype CookieToken = CookieToken(name: string, value: string, path: string, httpOnly: bool)

  /** A captured session. */
  datatype Session = Session(
    id: string,
    index: int,
    phishletName: string,
    landingURL: string,
    username: string,
    password: string,
    custom: map<string, string>,
    bodyTokens: map<string, string>,
    httpTokens: map<string, string>,
    cookieTokens: map<string, map<string, CookieToken>>,
    userAgent: string,
    remoteAddr: string,
    createTime: Time,
    updateTime: Time,
    isActive: bool,
    redirectURL: string)

  /** One published version of a campaign. */
  datatype PhishletVersion = PhishletVersion(
    version: string,
    author: string,
    description: string,
    createdAt: Time,
    hash: string,
    content: string)

  /** A visitor's progress through a multi-step flow. */
  datatype FlowSession = FlowSession(
    id: string,
    phishletName: string,
    flowName: string,
    currentStep: string,
    stepData: map<string, string>,
    createdAt: Time,
    updatedAt: Time)

  /** `combineHost`: the bare domain for an empty subdomain, else `sub.domain`. */
  function CombineHost(subdomain: string, domain: string): (r: string)
    ensures subdomain == "" <==> r == domain
  {
    if subdomain == "" then domain else subdomain + "." + domain
  }

  /** A combined host always ends with its domain. */
  lemma CombineHostEndsWithDomain(subdomain: string, domain: string)
    ensures |CombineHost(subdomain, domain)| >= |domain|
    ensures CombineHost(subdomain, domain)[|CombineHost(subdomain, domain)| - |domain|..] == domain
  {
  }

  /** A non-empty subdomain comes first, followed by a dot and the domain. */
  lemma CombineHostStartsWithSubdomain(subdomain: string, domain: string)
    requires subdomain != ""
    ensures CombineHost(subdomain, domain) == subdomain + "." + domain
    ensures CombineHost(subdomain, domain)[..|subdomain| + 1] == subdomain + "."
  {
  }

  /** For a fixed domain, the combined host determines the subdomain. */
  lemma CombineHostInjective(s1: string, s2: string, domain: string)
    requires CombineHost(s1, domain) == CombineHost(s2, domain)
    ensures s1 == s2
  {
    if s1 != "" && s2 != "" {
      var c := CombineHost(s1, domain);
      assert |s1| == |s2|;
      assert s1 == c[..|s1|] == s2;
    }
  }
}
