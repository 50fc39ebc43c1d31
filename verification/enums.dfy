/** The two closed enumerations of the rule file (bot/models/enums.py): the
    rule type in the first column and the legacy policy in the optional third
    column, each with its fixed wire token. */
module Enums {
  import opened Wrappers
  import opened Strings

  datatype RuleType = DomainSuffix | Domain | DomainKeyword | IpCidr

  datatype Policy = Proxy | Direct | Reject

  /** Characters `[A-Z\-]` accepted by the type column of a rule line. */
  predicate IsTypeTokenChar(c: char) { IsUpperAlpha(c) || c == '-' }

  function RuleTypeToken(t: RuleType): (tok: string)
    ensures |tok| >= 1 && forall i :: 0 <= i < |tok| ==> IsTypeTokenChar(tok[i])
  {
    match t
    case DomainSuffix => "DOMAIN-SUFFIX"
    case Domain => "DOMAIN"
    case DomainKeyword => "DOMAIN-KEYWORD"
    case IpCidr => "IP-CIDR"
  }

  function PolicyToken(p: Policy): (tok: string)
    ensures |tok| >= 1 && forall i :: 0 <= i < |tok| ==> IsUpperAlpha(tok[i])
  {
    match p
    case Proxy => "PROXY"
    case Direct => "DIRECT"
    case Reject => "REJECT"
  }

  /** `RuleType(s)`: succeeds exactly on the four tokens and raises (None)
      on anything else. */
  function ParseRuleType(s: string): (r: Option<RuleType>)
    ensures forall t :: r == Some(t) <==> RuleTypeToken(t) == s
  {
    if s == "DOMAIN-SUFFIX" then Some(DomainSuffix)
    else if s == "DOMAIN" then Some(Domain)
    else if s == "DOMAIN-KEYWORD" then Some(DomainKeyword)
    else if s == "IP-CIDR" then Some(IpCidr)
    else None
  }

  /** `Policy(s)`: succeeds exactly on the three tokens. */
  function ParsePolicy(s: string): (r: Option<Policy>)
    ensures forall p :: r == Some(p) <==> PolicyToken(p) == s
  {
    if s == "PROXY" then Some(Proxy)
    else if s == "DIRECT" then Some(Direct)
    else if s == "REJECT" then Some(Reject)
    else None
  }

  /** Distinct variants have distinct tokens, so a token names one variant. */
  lemma {:induction false} TokensInjective(t1: RuleType, t2: RuleType, p1: Policy, p2: Policy)
    ensures RuleTypeToken(t1) == RuleTypeToken(t2) ==> t1 == t2
    ensures PolicyToken(p1) == PolicyToken(p2) ==> p1 == p2
  {
    assert ParseRuleType(RuleTypeToken(t1)) == Some(t1);
    assert ParsePolicy(PolicyToken(p1)) == Some(p1);
  }

  /** The rule types in the order of their tokens, which is the order
      `sorted(Counter(...).items())` lists them in. */
  const RuleTypesByToken: seq<RuleType> := [Domain, DomainKeyword, DomainSuffix, IpCidr]
}
