/**
 * The phishlet condition evaluator (internal/phishlet/conditions.go): each
 * condition has a type, a list of values, an optional compiled regular
 * expression and the actions to take when it matches. A regular expression
 * is modelled by its `MatchString` predicate. The evaluator's GeoIP provider
 * is the mock one, which places every address in "US"; `net.ParseIP` takes
 * the IPv6 syntax as a parameter.
 */
module Conditions {
  import opened Wrappers
  import opened Strings
  import Net

  datatype ConditionAction = ConditionAction(actionType: string, value: string, template: string)

  datatype Condition = Condition(
    name: string,
    conditionType: string,
    values: seq<string>,
    regex: Option<string -> bool>,
    actions: seq<ConditionAction>)

  /** What a request offers to the conditions; `customParams` is `None` for a nil map. */
  datatype EvaluationContext = EvaluationContext(
    userAgent: string,
    email: string,
    ipAddress: string,
    hostname: string,
    path: string,
    customParams: Option<map<string, string>>)

  /** The country the mock GeoIP provider gives every address. */
  const MockCountry: string := "US"

  /** The first index whose element satisfies `p`, or -1: the search loops with early return. */
  function FirstWhere<T>(s: seq<T>, p: T -> bool): (r: int)
    ensures -1 <= r < |s|
    ensures r >= 0 ==> p(s[r]) && forall j :: 0 <= j < r ==> !p(s[j])
    ensures r == -1 <==> forall j :: 0 <= j < |s| ==> !p(s[j])
  {
    if |s| == 0 then -1
    else if p(s[0]) then 0
    else
      var k := FirstWhere(s[1..], p);
      assert forall j :: 1 <= j < |s| ==> s[j] == s[1..][j - 1];
      if k < 0 then -1 else k + 1
  }

  /** Some value satisfies `p`, or else the regular expression, if any, matches `subject`. */
  function ValueOrRegex(c: Condition, p: string -> bool, subject: string): (r: bool)
    ensures r <==> (exists j :: 0 <= j < |c.values| && p(c.values[j]))
                   || (c.regex.Some? && c.regex.value(subject))
  {
    if FirstWhere(c.values, p) >= 0 then true
    else c.regex.Some? && c.regex.value(subject)
  }

  /** The domain of an address with exactly one '@', lower-cased. */
  function EmailDomainOf(email: string): Option<string>
  {
    var parts := Split(email, '@');
    if |parts| == 2 then Some(ToLower(parts[1])) else None
  }

  /** `evaluateEmailDomain`. */
  function EvaluateEmailDomain(c: Condition, ctx: EvaluationContext): (r: bool)
    ensures ctx.email == "" || EmailDomainOf(ctx.email).None? ==> !r
    ensures ctx.email != "" && EmailDomainOf(ctx.email).Some? ==>
      (r <==> (exists j :: 0 <= j < |c.values| && ToLower(c.values[j]) == EmailDomainOf(ctx.email).value)
              || (c.regex.Some? && c.regex.value(EmailDomainOf(ctx.email).value)))
  {
    if ctx.email == "" then false
    else match EmailDomainOf(ctx.email)
      case None => false
      case Some(domain) => ValueOrRegex(c, v => ToLower(v) == domain, domain)
  }

  /** `evaluateUserAgent`: a case-insensitive substring test, the regex on the original text. */
  function EvaluateUserAgent(c: Condition, ctx: EvaluationContext): (r: bool)
    ensures ctx.userAgent == "" ==> !r
    ensures ctx.userAgent != "" ==>
      (r <==> (exists j :: 0 <= j < |c.values| && Contains(ToLower(ctx.userAgent), ToLower(c.values[j])))
              || (c.regex.Some? && c.regex.value(ctx.userAgent)))
  {
    if ctx.userAgent == "" then false
    else ValueOrRegex(c, v => Contains(ToLower(ctx.userAgent), ToLower(v)), ctx.userAgent)
  }

  /** `evaluateIPGeo` with the mock provider. */
  function EvaluateIPGeo(c: Condition, ctx: EvaluationContext, v6: Net.Ip6Syntax): (r: Result<bool>)
    ensures ctx.ipAddress == "" ==> r == Ok(false)
    ensures ctx.ipAddress != "" && Net.ParseIP(v6, ctx.ipAddress).None? ==>
      r == Err("invalid IP address: " + ctx.ipAddress)
    ensures ctx.ipAddress != "" && Net.ParseIP(v6, ctx.ipAddress).Some? ==>
      r.Ok? && (r.value <==> (exists j :: 0 <= j < |c.values| && EqualFold(c.values[j], MockCountry))
                             || (c.regex.Some? && c.regex.value(MockCountry)))
    ensures r.Ok? || r.error == "invalid IP address: " + ctx.ipAddress
  {
    if ctx.ipAddress == "" then Ok(false)
    else if Net.ParseIP(v6, ctx.ipAddress).None? then Err("invalid IP address: " + ctx.ipAddress)
    else Ok(ValueOrRegex(c, v => EqualFold(v, MockCountry), MockCountry))
  }

  /** The value is `key=expected` split at its first '='. */
  predicate PairMatches(value: string, key: string, expected: string)
  {
    var (k, v, found) := Cut(value, '=');
    found && k == key && v == expected
  }

  /** `evaluateCustom`: some parameter equals some `key=value` of the condition. */
  function EvaluateCustom(c: Condition, ctx: EvaluationContext): (r: bool)
    ensures ctx.customParams.None? ==> !r
    ensures ctx.customParams.Some? ==>
      (r <==> exists key, j :: key in ctx.customParams.value && 0 <= j < |c.values|
                              && PairMatches(c.values[j], key, ctx.customParams.value[key]))
  {
    match ctx.customParams
    case None => false
    case Some(params) =>
      var i := FirstWhere(c.values, (v: string) => var (k, w, found) := Cut(v, '='); found && k in params && params[k] == w);
      if i < 0 then false
      else
        var (k, w, _) := Cut(c.values[i], '=');
        assert PairMatches(c.values[i], k, params[k]);
        true
  }

  /** `evaluateHostname`: case-insensitive equality, the regex on the lower-cased host. */
  function EvaluateHostname(c: Condition, ctx: EvaluationContext): (r: bool)
    ensures ctx.hostname == "" ==> !r
    ensures ctx.hostname != "" ==>
      (r <==> (exists j :: 0 <= j < |c.values| && ToLower(c.values[j]) == ToLower(ctx.hostname))
              || (c.regex.Some? && c.regex.value(ToLower(ctx.hostname))))
  {
    if ctx.hostname == "" then false
    else
      var hostname := ToLower(ctx.hostname);
      ValueOrRegex(c, v => ToLower(v) == hostname, hostname)
  }

  /** `evaluatePath`: exact equality. */
  function EvaluatePath(c: Condition, ctx: EvaluationContext): (r: bool)
    ensures ctx.path == "" ==> !r
    ensures ctx.path != "" ==>
      (r <==> (exists j :: 0 <= j < |c.values| && c.values[j] == ctx.path)
              || (c.regex.Some? && c.regex.value(ctx.path)))
  {
    if ctx.path == "" then false
    else ValueOrRegex(c, v => v == ctx.path, ctx.path)
  }

  /** The condition types the evaluator knows, in lower case. */
  predicate KnownType(t: string)
  {
    t == "email_domain" || t == "user_agent" || t == "ip_geo"
    || t == "custom" || t == "hostname" || t == "path"
  }

  /** An address error is never mistaken for an unknown type. */
  lemma DistinctErrors(ip: string, t: string)
    ensures "invalid IP address: " + ip != "unknown condition type: " + t
  {
    assert ("invalid IP address: " + ip)[0] == 'i';
    assert ("unknown condition type: " + t)[0] == 'u';
  }

  /** `evaluateCondition`: dispatch on the lower-cased type. */
  function EvaluateCondition(c: Condition, ctx: EvaluationContext, v6: Net.Ip6Syntax): (r: Result<bool>)
    ensures !KnownType(ToLower(c.conditionType)) <==> r == Err("unknown condition type: " + c.conditionType)
    ensures ToLower(c.conditionType) != "ip_geo" ==> (r.Ok? <==> KnownType(ToLower(c.conditionType)))
  {
    match ToLower(c.conditionType)
    case "email_domain" => Ok(EvaluateEmailDomain(c, ctx))
    case "user_agent" => Ok(EvaluateUserAgent(c, ctx))
    case "ip_geo" =>
      DistinctErrors(ctx.ipAddress, c.conditionType);
      EvaluateIPGeo(c, ctx, v6)
    case "custom" => Ok(EvaluateCustom(c, ctx))
    case "hostname" => Ok(EvaluateHostname(c, ctx))
    case "path" => Ok(EvaluatePath(c, ctx))
    case _ => Err("unknown condition type: " + c.conditionType)
  }

  /**
   * A condition of a known type fails only as `ip_geo` on a non-empty address
   * that does not parse, and then with exactly the address error.
   */
  lemma KnownTypeErrors(c: Condition, ctx: EvaluationContext, v6: Net.Ip6Syntax)
    requires KnownType(ToLower(c.conditionType))
    ensures EvaluateCondition(c, ctx, v6).Err? <==>
      ToLower(c.conditionType) == "ip_geo" && ctx.ipAddress != "" && Net.ParseIP(v6, ctx.ipAddress).None?
    ensures EvaluateCondition(c, ctx, v6).Err? ==>
      EvaluateCondition(c, ctx, v6).error == "invalid IP address: " + ctx.ipAddress
  {
  }

  /** The error `EvaluateConditions` reports for a condition that failed with `e`. */
  function Wrapped(c: Condition, e: string): string
  {
    "failed to evaluate condition '" + c.name + "': " + e
  }

  /** The evaluator `EvaluateConditions` folds with. */
  function Evaluator(ctx: EvaluationContext, v6: Net.Ip6Syntax): Condition -> Result<bool>
  {
    c => EvaluateCondition(c, ctx, v6)
  }

  /**
   * The outcome of evaluating `conds` in order: the actions of the matched
   * conditions, concatenated, or the first failure.
   */
  function Collected(conds: seq<Condition>, eval: Condition -> Result<bool>): (r: Result<seq<ConditionAction>>)
    ensures |conds| > 0 && eval(conds[|conds| - 1]).Err? ==> r.Err?
  {
    if |conds| == 0 then Ok([])
    else
      var last := conds[|conds| - 1];
      match Collected(conds[..|conds| - 1], eval)
      case Err(e) => Err(e)
      case Ok(acc) =>
        match eval(last)
        case Err(e) => Err(Wrapped(last, e))
        case Ok(matched) => Ok(acc + if matched then last.actions else [])
  }

  /** Once a prefix has failed, every longer prefix fails the same way. */
  lemma {:induction false} CollectedErrSticks(conds: seq<Condition>, k: nat, eval: Condition -> Result<bool>)
    requires k <= |conds| && Collected(conds[..k], eval).Err?
    ensures Collected(conds, eval) == Collected(conds[..k], eval)
    decreases |conds| - k
  {
    if k < |conds| {
      assert conds[..k + 1][..k] == conds[..k];
      CollectedErrSticks(conds, k + 1, eval);
    } else {
      assert conds[..k] == conds;
    }
  }

  /** The fold after one more condition, given the fold before it succeeded. */
  lemma CollectedNext(conds: seq<Condition>, k: nat, eval: Condition -> Result<bool>, acc: seq<ConditionAction>)
    requires k < |conds| && Collected(conds[..k], eval) == Ok(acc)
    ensures Collected(conds[..k + 1], eval) ==
      match eval(conds[k])
      case Err(e) => Err(Wrapped(conds[k], e))
      case Ok(matched) => Ok(acc + if matched then conds[k].actions else [])
  {
    assert conds[..k + 1][..k] == conds[..k];
    assert conds[..k + 1][k] == conds[k];
  }

  /** `EvaluateConditions`. */
  method EvaluateConditions(conditions: seq<Condition>, ctx: EvaluationContext, v6: Net.Ip6Syntax)
    returns (r: Result<seq<ConditionAction>>)
    ensures r == Collected(conditions, Evaluator(ctx, v6))
  {
    ghost var eval := Evaluator(ctx, v6);
    var actions: seq<ConditionAction> := [];
    var k := 0;
    while k < |conditions|
      invariant 0 <= k <= |conditions|
      invariant Collected(conditions[..k], eval) == Ok(actions)
    {
      var condition := conditions[k];
      CollectedNext(conditions, k, eval, actions);
      var matched := EvaluateCondition(condition, ctx, v6);
      if matched.Err? {
        CollectedErrSticks(conditions, k + 1, eval);
        return Err(Wrapped(condition, matched.error));
      }
      ghost var before := actions;
      if matched.value {
        var i := 0;
        while i < |condition.actions|
          invariant 0 <= i <= |condition.actions|
          invariant actions == before + condition.actions[..i]
        {
          actions := actions + [condition.actions[i]];
          i := i + 1;
        }
        assert condition.actions[..|condition.actions|] == condition.actions;
      } else {
        assert actions == before + [];
      }
      k := k + 1;
    }
    assert conditions[..k] == conditions;
    r := Ok(actions);
  }

  /** A list of conditions is collected only when each of them evaluates without error. */
  lemma {:induction false} CollectedAllOk(conds: seq<Condition>, eval: Condition -> Result<bool>)
    requires Collected(conds, eval).Ok?
    ensures forall i :: 0 <= i < |conds| ==> eval(conds[i]).Ok?
  {
    if |conds| > 0 {
      var init := conds[..|conds| - 1];
      CollectedAllOk(init, eval);
      assert forall i :: 0 <= i < |init| ==> conds[i] == init[i];
    }
  }

  /** One step of the fold: the last condition's actions follow those of the others. */
  lemma CollectedStep(conds: seq<Condition>, eval: Condition -> Result<bool>)
    requires |conds| > 0 && Collected(conds, eval).Ok?
    ensures Collected(conds[..|conds| - 1], eval).Ok?
    ensures Collected(conds, eval).value == Collected(conds[..|conds| - 1], eval).value
      + if eval(conds[|conds| - 1]) == Ok(true) then conds[|conds| - 1].actions else []
  {
  }

  /** An action is returned exactly when it belongs to a condition that matched. */
  lemma CollectedActions(conds: seq<Condition>, eval: Condition -> Result<bool>, a: ConditionAction)
    requires Collected(conds, eval).Ok?
    ensures a in Collected(conds, eval).value <==>
      exists i :: 0 <= i < |conds| && eval(conds[i]) == Ok(true) && a in conds[i].actions
  {
    if a in Collected(conds, eval).value {
      CollectedActionsSound(conds, eval, a);
    }
    if exists i :: 0 <= i < |conds| && eval(conds[i]) == Ok(true) && a in conds[i].actions {
      var i :| 0 <= i < |conds| && eval(conds[i]) == Ok(true) && a in conds[i].actions;
      CollectedActionsComplete(conds, eval, a, i);
    }
  }

  /** Every returned action belongs to a condition that matched. */
  lemma {:induction false} CollectedActionsSound(conds: seq<Condition>, eval: Condition -> Result<bool>, a: ConditionAction)
    requires Collected(conds, eval).Ok? && a in Collected(conds, eval).value
    ensures exists i :: 0 <= i < |conds| && eval(conds[i]) == Ok(true) && a in conds[i].actions
  {
    var n := |conds| - 1;
    var init := conds[..n];
    CollectedStep(conds, eval);
    if a in Collected(init, eval).value {
      CollectedActionsSound(init, eval, a);
      var i :| 0 <= i < |init| && eval(init[i]) == Ok(true) && a in init[i].actions;
      assert init[i] == conds[i];
    } else {
      assert eval(conds[n]) == Ok(true) && a in conds[n].actions;
    }
  }

  /** Every action of a condition that matched is returned. */
  lemma {:induction false} CollectedActionsComplete(conds: seq<Condition>, eval: Condition -> Result<bool>, a: ConditionAction, i: nat)
    requires Collected(conds, eval).Ok?
    requires i < |conds| && eval(conds[i]) == Ok(true) && a in conds[i].actions
    ensures a in Collected(conds, eval).value
  {
    var n := |conds| - 1;
    var init := conds[..n];
    CollectedStep(conds, eval);
    if i < n {
      assert init[i] == conds[i];
      CollectedActionsComplete(init, eval, a, i);
    }
  }

  /** A failure is reported for the first condition that fails, after all before it succeeded. */
  lemma {:induction false} CollectedError(conds: seq<Condition>, eval: Condition -> Result<bool>)
    requires Collected(conds, eval).Err?
    ensures exists i :: (0 <= i < |conds| && eval(conds[i]).Err?
      && (forall j :: 0 <= j < i ==> eval(conds[j]).Ok?)
      && Collected(conds, eval).error == Wrapped(conds[i], eval(conds[i]).error))
  {
    var init := conds[..|conds| - 1];
    assert forall i :: 0 <= i < |init| ==> conds[i] == init[i];
    if Collected(init, eval).Err? {
      CollectedError(init, eval);
    } else {
      CollectedAllOk(init, eval);
    }
  }

  /** An empty list of conditions matches nothing. */
  lemma NoConditions(eval: Condition -> Result<bool>)
    ensures Collected([], eval) == Ok([])
  {
  }

  /** The type is matched without regard to case. */
  lemma TypeIgnoresCase(c: Condition, t: string, ctx: EvaluationContext, v6: Net.Ip6Syntax)
    requires ToLower(t) == ToLower(c.conditionType)
    requires KnownType(ToLower(t))
    ensures EvaluateCondition(c.(conditionType := t), ctx, v6) == EvaluateCondition(c, ctx, v6)
  {
  }

  /** With the mock provider, a parseable address is in "us", whatever case the value uses. */
  lemma MockGeoMatchesUS(c: Condition, ctx: EvaluationContext, v6: Net.Ip6Syntax)
    requires ctx.ipAddress != "" && Net.ParseIP(v6, ctx.ipAddress).Some?
    requires |c.values| >= 1 && c.values[0] == "us"
    ensures EvaluateIPGeo(c, ctx, v6) == Ok(true)
  {
    assert EqualFold(c.values[0], MockCountry);
  }
}
