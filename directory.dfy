/** The string side of the directory client: the base naming context built
    from the configured setting, the `domain\account` identity the service
    binds with, the distinguished name of the account whose password is set,
    and the outcome `reset_ad_password` reports. The network calls themselves
    (bind, search, password modification) are outcomes passed in. */
module Directory {
  import opened Wrappers
  import opened Text

  const DcPrefix: string := "DC="
  const CnPrefix: string := "CN="

  /** One `DC=<label>` component per dotted label. */
  function DomainComponents(labels: seq<string>): seq<string>
  {
    seq(|labels|, i requires 0 <= i < |labels| => DcPrefix + labels[i])
  }

  /** LDAP_BASE_DN from the raw setting: unset or empty gives the empty
      string, a value already holding `DC=` is kept, and a dotted domain name
      becomes `DC=<label>` per label, joined by commas (the domain-to-DN
      mapping of section 2 of RFC 2247, without escaping). */
  function NormalizeBaseDn(raw: Option<string>): string
  {
    match raw
    case None => ""
    case Some(s) =>
      if s == "" then ""
      else if Contains(s, DcPrefix) then s
      else Join(DomainComponents(Split(s, '.')), ',')
  }

  /** `dn.split(',')[0].replace(prefix, '')`: the first relative name with
      every occurrence of the attribute prefix removed. */
  function FirstRdnValue(dn: string, prefix: string): string
    requires |prefix| > 0
  {
    RemoveAll(Split(dn, ',')[0], prefix)
  }

  /** The `domain\account` identity used for the simple bind. An unset
      service DN makes Python raise while building it, which both callers
      catch as a failure; that case is `None`. */
  function BindName(baseDn: string, serviceDn: Option<string>): (r: Option<string>)
    ensures r.Some? <==> serviceDn.Some?
    ensures r.Some? ==> FirstRdnValue(baseDn, DcPrefix) <= r.value
  {
    match serviceDn
    case None => None
    case Some(dn) => Some(FirstRdnValue(baseDn, DcPrefix) + "\\" + FirstRdnValue(dn, CnPrefix))
  }

  /** `CN=<username>,<base>`, the entry whose password is set. For a
      username without a comma its components are the user's `CN=` name
      followed by the components of the base. */
  function UserDn(username: string, baseDn: string): (dn: string)
    ensures ',' !in username ==> Split(dn, ',') == [CnPrefix + username] + Split(baseDn, ',')
  {
    var rdn := CnPrefix + username;
    assert rdn + "," + baseDn == rdn + [','] + baseDn;
    if ',' in username then rdn + "," + baseDn
    else
      assert ',' !in rdn;
      SplitField(rdn, ',', baseDn);
      rdn + "," + baseDn
  }

  // ---------------------------------------------------------------------
  // Base-DN normalisation.

  /** An unset or empty setting gives an empty base DN. */
  lemma NormalizeUnset(raw: Option<string>)
    requires raw == None || raw == Some("")
    ensures NormalizeBaseDn(raw) == ""
  {
  }

  /** A setting that already contains `DC=` is used verbatim. */
  lemma NormalizeKeepsDn(s: string)
    requires Contains(s, DcPrefix)
    ensures NormalizeBaseDn(Some(s)) == s
  {
  }

  /** For a dotted domain name, the comma-separated components of the base DN
      are exactly `DC=<label>` for each dotted label, in order. */
  lemma NormalizeDomainComponents(s: string)
    requires s != "" && !Contains(s, DcPrefix) && ',' !in s
    ensures Split(NormalizeBaseDn(Some(s)), ',') == DomainComponents(Split(s, '.'))
  {
    var labels := Split(s, '.');
    SplitFieldsWithin(s, '.', ',');
    var rdns := DomainComponents(labels);
    forall i | 0 <= i < |rdns|
      ensures ',' !in rdns[i]
    {
      assert rdns[i] == DcPrefix + labels[i];
    }
    SplitJoin(rdns, ',');
  }

  /** A two-label domain such as `corp.test` becomes `DC=corp,DC=test`. */
  lemma NormalizeTwoLabels(a: string, b: string)
    requires a != "" && '.' !in a && '.' !in b && '=' !in a + b
    ensures NormalizeBaseDn(Some(a + "." + b)) == DcPrefix + a + "," + DcPrefix + b
  {
    var s := a + "." + b;
    assert '=' !in s;
    MissingCharNotContained(s, DcPrefix, '=');
    SplitTwoLabels(a, b);
    JoinTwoComponents(a, b);
  }

  lemma SplitTwoLabels(a: string, b: string)
    requires '.' !in a && '.' !in b
    ensures Split(a + "." + b, '.') == [a, b]
  {
    assert a + "." + b == a + ['.'] + b;
    SplitField(a, '.', b);
    SplitWithoutSep(b, '.');
  }

  lemma JoinTwoComponents(a: string, b: string)
    ensures Join(DomainComponents([a, b]), ',') == DcPrefix + a + "," + DcPrefix + b
  {
    var rdns := DomainComponents([a, b]);
    assert rdns == [DcPrefix + a, DcPrefix + b];
    assert rdns[1..] == [DcPrefix + b];
  }

  // ---------------------------------------------------------------------
  // Bind identity and user DN.

  /** For a base DN built from a dotted domain, the domain half of the bind
      name is the first dotted label (the NetBIOS-style short name). */
  lemma BindDomainIsFirstLabel(s: string)
    requires s != "" && !Contains(s, DcPrefix) && ',' !in s
    ensures FirstRdnValue(NormalizeBaseDn(Some(s)), DcPrefix) == Split(s, '.')[0]
  {
    var first := Split(s, '.')[0];
    NormalizeDomainComponents(s);
    assert Split(NormalizeBaseDn(Some(s)), ',')[0] == DcPrefix + first;
    FirstFieldIsPrefix(s, '.');
    if Contains(first, DcPrefix) {
      ContainsInPrefix(first, s, DcPrefix);
    }
    StripPrefix(DcPrefix, first);
  }

  /** The account half of the bind name inverts `UserDn`: an account DN
      built as `CN=<name>,<base>` yields `<name>` back. */
  lemma AccountNameOfUserDn(name: string, baseDn: string)
    requires ',' !in name && !Contains(name, CnPrefix)
    ensures FirstRdnValue(UserDn(name, baseDn), CnPrefix) == name
  {
    assert UserDn(name, baseDn) == (CnPrefix + name) + [','] + baseDn;
    assert ',' !in CnPrefix + name;
    SplitField(CnPrefix + name, ',', baseDn);
    StripPrefix(CnPrefix, name);
  }

  /** With the base DN built from a dotted domain and the service DN built as
      `CN=<name>,...`, the bind identity is `<first label>\<name>`. */
  lemma BindNameForDomain(s: string, name: string, rest: string)
    requires s != "" && !Contains(s, DcPrefix) && ',' !in s
    requires ',' !in name && !Contains(name, CnPrefix)
    ensures BindName(NormalizeBaseDn(Some(s)), Some(UserDn(name, rest))) == Some(Split(s, '.')[0] + "\\" + name)
  {
    BindDomainIsFirstLabel(s);
    AccountNameOfUserDn(name, rest);
  }

  /** For a setting already in DN form, `DC=<d>,...`, the domain half of
      the bind name is `<d>`. */
  lemma BindDomainOfDnSetting(d: string, rest: string)
    requires ',' !in d && !Contains(d, DcPrefix)
    ensures FirstRdnValue(NormalizeBaseDn(Some(DcPrefix + d + "," + rest)), DcPrefix) == d
  {
    var s := DcPrefix + d + "," + rest;
    assert s == (DcPrefix + d) + [','] + rest;
    assert StartsWith(s, DcPrefix);
    assert NormalizeBaseDn(Some(s)) == s;
    assert ',' !in DcPrefix + d;
    SplitField(DcPrefix + d, ',', rest);
    StripPrefix(DcPrefix, d);
  }

  /** With the base DN set as `DC=<d>,...` and the service DN built as
      `CN=<name>,...`, the bind identity is `<d>\<name>`. */
  lemma BindNameForDnSetting(d: string, rest: string, name: string, serviceRest: string)
    requires ',' !in d && !Contains(d, DcPrefix)
    requires ',' !in name && !Contains(name, CnPrefix)
    ensures BindName(NormalizeBaseDn(Some(DcPrefix + d + "," + rest)), Some(UserDn(name, serviceRest)))
              == Some(d + "\\" + name)
  {
    BindDomainOfDnSetting(d, rest);
    AccountNameOfUserDn(name, serviceRest);
  }

  // ---------------------------------------------------------------------
  // The password write (`reset_ad_password`).

  /** What the directory calls of `reset_ad_password` did: the bind was
      refused, some step raised (connection, an unset service DN, the
      modification), or the password modification returned its boolean. */
  datatype WriteOutcome = BindRefused | Raised(detail: string) | Modified(accepted: bool)

  /** The message `reset_ad_password` hands back to the request handler. */
  datatype ResetMessage = ConnectFailed | ResetSucceeded | ResetFailed(detail: string)

  /** `reset_ad_password` as written: success is reported whenever the
      modification call returns, whatever it returned. */
  function ResetAdPassword(outcome: WriteOutcome): (r: (bool, ResetMessage))
    ensures r.0 <==> outcome.Modified?
    ensures outcome.Modified? ==> r.1 == ResetSucceeded
    ensures outcome.BindRefused? ==> r.1 == ConnectFailed
    ensures outcome.Raised? ==> r.1 == ResetFailed(outcome.detail)
  {
    match outcome
    case BindRefused => (false, ConnectFailed)
    case Raised(detail) => (false, ResetFailed(detail))
    case Modified(_) => (true, ResetSucceeded)
  }

  /** A refused modification is reported as a successful reset. */
  lemma RefusedWriteReportedAsSuccess()
    ensures ResetAdPassword(Modified(false)) == (true, ResetSucceeded)
  {
  }

  /** `reset_ad_password` with the modification's result checked: success is
      reported exactly when the directory accepted the new password. */
  function ResetAdPasswordChecked(outcome: WriteOutcome): (r: (bool, ResetMessage))
    ensures r.0 <==> outcome == Modified(true)
    ensures r.0 ==> r.1 == ResetSucceeded
    ensures outcome.BindRefused? ==> r.1 == ConnectFailed
    ensures outcome.Raised? ==> r.1 == ResetFailed(outcome.detail)
  {
    match outcome
    case BindRefused => (false, ConnectFailed)
    case Raised(detail) => (false, ResetFailed(detail))
    case Modified(accepted) =>
      if accepted then (true, ResetSucceeded) else (false, ResetFailed("password modification refused"))
  }

  /** The two agree on every outcome except a refused modification. */
  lemma CheckedDiffersOnlyOnRefusal(outcome: WriteOutcome)
    ensures ResetAdPasswordChecked(outcome) == ResetAdPassword(outcome) <==> outcome != Modified(false)
  {
  }

}
