/** The IPS-rule reconciliation engine of class `Op` in code/dsop.py: for one
    computer and one CVE it resolves the governing policy, then enables or
    disables the IPS rules mapped to the CVE on that policy.

    The decision functions below say, for a given backend state and inputs,
    which backend calls are made and what the invocation returns; the methods
    of class `Op` do the same work step by step against the object's state
    and are proved to agree with them. */
module Dsop {
  import opened Wrappers
  import opened DsBackend

  /** The messages `run` returns in a response body, and their text. */
  datatype Message = PolicyChanged | NoPolicyChange | RulesRemoved | RulesNotApplied | NoRulesFor(cve: string)
  {
    function Text(): string
    {
      match this
      case PolicyChanged => "Policy changes were completed successfully"
      case NoPolicyChange => "No policy changes were required"
      case RulesRemoved => "Successfully removed all relevant IPS rules"
      case RulesNotApplied => "Rules are not applied to policy. No changes need to be made"
      case NoRulesFor(cve) => "Cannot find IPS rule(s) for " + cve
    }
  }

  /** Why an invocation ends the process (`sys.exit` or an uncaught
      exception) instead of returning a response. */
  datatype FatalReason =
    | ComputerNotFound(hostname: string)  // get_computer raised ValueError
    | MissingPolicyName(hostname: string) // no current policy and no policy_name
    | PolicyNotFound(policyId: int)       // get_policy by id found nothing
    | InvalidEnableRules                  // str_to_bool rejected enable_rules
    | RulesNotIterable                    // set(None) in disable_ips_rules
  {
    /** The text of the exit, where dsop.py fixes it: the configuration
        message that line 101 logs and passes to `sys.exit`, and the message
        line 143 hands to `str_to_bool`, whose logging and exit belong to the
        base class. */
    function Text(): Option<string>
    {
      match this
      case MissingPolicyName(hostname) =>
        Some("Invalid configuration. As " + hostname
             + " does not currently have a policy applied to it, the \"policy_name\" parameter must be set")
      case InvalidEnableRules => Some("\"enable_rules\" must be set to true or false")
      case _ => None
    }
  }

  /** What the caller sees: a `json_response(code, msg)` or a process exit. */
  datatype Outcome = Response(statusCode: int, message: Message) | Fatal(reason: FatalReason)

  /** The backend calls an invocation makes, in order, and its outcome. */
  datatype Decision = Decision(calls: seq<Call>, outcome: Outcome)

  /** The policy that governs the invocation: its id, its applied rules as
      read before any change, and the calls made to obtain it. */
  datatype Resolution =
    | Resolved(policyId: int, existing: Option<seq<int>>, calls: seq<Call>)
    | Unresolved(reason: FatalReason)

  // Python truthiness of the three optional inputs the code tests with `if`/`not`.

  predicate IdIsSet(id: Option<int>)
  {
    id.Some? && id.value != 0
  }

  predicate NameIsSet(name: Option<string>)
  {
    name.Some? && name.value != ""
  }

  predicate RulesAreSet(rules: Option<seq<int>>)
  {
    rules.Some? && rules.value != []
  }

  /** The rules enable still has to apply: the CVE's rules minus those
      already applied; all of the CVE's rules when the policy has none. */
  function MissingRuleIds(cveRuleIds: seq<int>, existing: Option<seq<int>>): (r: set<int>)
    ensures forall x :: x in r <==> x in cveRuleIds && !(existing.Some? && x in existing.value)
    ensures !RulesAreSet(existing) ==> r == Elems(cveRuleIds)
  {
    if RulesAreSet(existing) then Elems(cveRuleIds) - Elems(existing.value)
    else Elems(cveRuleIds)
  }

  /** The CVE's rules that disable finds applied to the policy. */
  function RulesToRemove(existing: seq<int>, cveRuleIds: seq<int>): (r: set<int>)
    ensures forall x :: x in r <==> x in existing && x in cveRuleIds
  {
    Elems(existing) * Elems(cveRuleIds)
  }

  /** enable_ips_rules: add the full CVE rule list when any of it is
      missing, move the computer when it is on another policy, and report
      whether anything changed. */
  function EnableDecision(computerId: int, currentPolicyId: Option<int>, policyId: int,
                          existing: Option<seq<int>>, cveRuleIds: seq<int>): (d: Decision)
    ensures AddIpsRules(policyId, cveRuleIds) in d.calls <==> MissingRuleIds(cveRuleIds, existing) != {}
    ensures SetComputerPolicyId(computerId, policyId) in d.calls <==> currentPolicyId != Some(policyId)
    ensures forall c :: c in d.calls ==>
              c == AddIpsRules(policyId, cveRuleIds) || c == SetComputerPolicyId(computerId, policyId)
    ensures forall i, j :: 0 <= i < j < |d.calls| ==> d.calls[i] != d.calls[j]
    ensures |d.calls| == 2 ==> d.calls[0].AddIpsRules? && d.calls[1].SetComputerPolicyId?
    ensures d.outcome == Response(200, if d.calls != [] then PolicyChanged else NoPolicyChange)
  {
    var add := if MissingRuleIds(cveRuleIds, existing) != {} then [AddIpsRules(policyId, cveRuleIds)] else [];
    var move := if currentPolicyId == Some(policyId) then [] else [SetComputerPolicyId(computerId, policyId)];
    var calls := add + move;
    Decision(calls, Response(200, if calls != [] then PolicyChanged else NoPolicyChange))
  }

  /** disable_ips_rules: remove the full CVE rule list when any of it is
      applied, otherwise change nothing; never move the computer. */
  function DisableDecision(policyId: int, existing: Option<seq<int>>, cveRuleIds: seq<int>): (d: Decision)
    ensures existing.None? ==> d == Decision([], Fatal(RulesNotIterable))
    ensures existing.Some? ==>
              (d.calls == [RemoveIpsRules(policyId, cveRuleIds)] <==> RulesToRemove(existing.value, cveRuleIds) != {})
    ensures existing.Some? ==>
              (d.calls == [] <==> RulesToRemove(existing.value, cveRuleIds) == {})
    ensures existing.Some? ==>
              d.outcome == Response(200, if d.calls != [] then RulesRemoved else RulesNotApplied)
    ensures forall c :: c in d.calls ==> !c.SetComputerPolicyId?
  {
    if existing.None? then Decision([], Fatal(RulesNotIterable))
    else if RulesToRemove(existing.value, cveRuleIds) != {} then
      Decision([RemoveIpsRules(policyId, cveRuleIds)], Response(200, RulesRemoved))
    else Decision([], Response(200, RulesNotApplied))
  }

  /** get_computer_and_policy_ids: the computer's id and current policy id,
      or the exit taken when no computer has that hostname. */
  function ComputerAndPolicyIds(cs: seq<Computer>, hostname: string): (r: Result<(int, Option<int>), FatalReason>)
    ensures r.Failure? <==> forall c :: c in cs ==> c.hostname != hostname
    ensures r.Failure? ==> r.error == ComputerNotFound(hostname)
    ensures r.Success? ==> exists c :: c in cs && c.hostname == hostname && r.value == (c.id, c.policyId)
  {
    match FindComputer(cs, hostname)
    case None => Failure(ComputerNotFound(hostname))
    case Some(c) => Success((c.id, c.policyId))
  }

  /** Policy resolution in run (lines 97 to 125): with neither a current
      policy nor a policy name, the invocation exits before any lookup; with
      no policy name, the computer's current policy looked up by id; with a
      name, the policy of that name, created with no rules applied when there
      is none. */
  function ResolvePolicy(s: Store, hostname: string, currentPolicyId: Option<int>,
                         policyName: Option<string>): (r: Resolution)
    ensures !IdIsSet(currentPolicyId) && !NameIsSet(policyName) ==> r == Unresolved(MissingPolicyName(hostname))
    ensures IdIsSet(currentPolicyId) && !NameIsSet(policyName) ==>
              match FindPolicy(s.policies, ById(currentPolicyId.value))
              case None => r == Unresolved(PolicyNotFound(currentPolicyId.value))
              case Some(p) => r == Resolved(currentPolicyId.value, p.appliedRuleIds, [])
    ensures NameIsSet(policyName) ==> r.Resolved? && (r.calls == [] <==> FindPolicy(s.policies, ByName(policyName.value)).Some?)
    ensures NameIsSet(policyName) && r.calls == [] ==>
              var p := FindPolicy(s.policies, ByName(policyName.value)).value;
              r.policyId == p.id && r.existing == p.appliedRuleIds
    ensures NameIsSet(policyName) && r.calls != [] ==>
              r == Resolved(s.nextPolicyId, Some([]), [CreatePolicy(policyName.value)])
    ensures r.Resolved? && r.calls != [] ==> NameIsSet(policyName) && r.calls == [CreatePolicy(policyName.value)]
  {
    if !IdIsSet(currentPolicyId) && !NameIsSet(policyName) then
      Unresolved(MissingPolicyName(hostname))
    else if !NameIsSet(policyName) then
      match FindPolicy(s.policies, ById(currentPolicyId.value))
      case None => Unresolved(PolicyNotFound(currentPolicyId.value))
      case Some(p) => Resolved(currentPolicyId.value, p.appliedRuleIds, [])
    else
      match FindPolicy(s.policies, ByName(policyName.value))
      case Some(p) => Resolved(p.id, p.appliedRuleIds, [])
      case None => Resolved(s.nextPolicyId, Some([]), [CreatePolicy(policyName.value)])
  }

  /** `cve_ips_map.get(cve)` followed by `if not cve_ips_rule_ids`: the
      CVE's rules when it is mapped to a non-empty list. */
  function LookupCveRules(cveMap: map<string, seq<int>>, cve: string): (r: Option<seq<int>>)
    ensures r.Some? <==> cve in cveMap && cveMap[cve] != []
    ensures r.Some? ==> r.value == cveMap[cve]
  {
    if cve in cveMap && cveMap[cve] != [] then Some(cveMap[cve]) else None
  }

  /** Lines 127 to 155 of run, once the policy is known: look the CVE up,
      parse the selector, and enable or disable the CVE's rules. */
  function CveStepDecision(cveMap: map<string, seq<int>>, cve: string, enableRules: Option<bool>,
                           computerId: int, currentPolicyId: Option<int>, policyId: int,
                           existing: Option<seq<int>>): (d: Decision)
    ensures LookupCveRules(cveMap, cve).None? ==> d == Decision([], Response(400, NoRulesFor(cve)))
    ensures LookupCveRules(cveMap, cve).Some? && enableRules.None? ==>
              d == Decision([], Fatal(InvalidEnableRules))
    ensures d.outcome.Response? && d.outcome.statusCode == 400 ==> LookupCveRules(cveMap, cve).None?
    ensures d.outcome.Response? ==> d.outcome.statusCode in {200, 400}
    ensures |d.calls| <= 2
    ensures forall c :: c in d.calls ==> !c.CreatePolicy?
    ensures forall c :: c in d.calls ==> c.AddIpsRules? || c.RemoveIpsRules? || c.SetComputerPolicyId?
    ensures forall c :: c in d.calls && (c.AddIpsRules? || c.RemoveIpsRules?) ==>
              cve in cveMap && c.ruleIds == cveMap[cve] && c.policyId == policyId
    ensures enableRules == Some(false) ==> forall c :: c in d.calls ==> c.RemoveIpsRules?
    ensures enableRules == Some(true) ==> forall c :: c in d.calls ==> !c.RemoveIpsRules?
    ensures LookupCveRules(cveMap, cve).Some? && enableRules == Some(true) ==>
              d == EnableDecision(computerId, currentPolicyId, policyId, existing, cveMap[cve])
    ensures LookupCveRules(cveMap, cve).Some? && enableRules == Some(false) ==>
              d == DisableDecision(policyId, existing, cveMap[cve])
  {
    match LookupCveRules(cveMap, cve)
    case None => Decision([], Response(400, NoRulesFor(cve)))
    case Some(cveRuleIds) =>
      match enableRules
      case None => Decision([], Fatal(InvalidEnableRules))
      case Some(enable) =>
        if enable then EnableDecision(computerId, currentPolicyId, policyId, existing, cveRuleIds)
        else DisableDecision(policyId, existing, cveRuleIds)
  }

  /** run: the calls made and the outcome of one invocation. */
  function RunDecision(s: Store, cveMap: map<string, seq<int>>, hostname: string,
                       policyName: Option<string>, cve: string, enableRules: Option<bool>): (d: Decision)
    ensures (forall c :: c in s.computers ==> c.hostname != hostname) ==> d == Decision([], Fatal(ComputerNotFound(hostname)))
    ensures |d.calls| <= 3
  {
    match ComputerAndPolicyIds(s.computers, hostname)
    case Failure(reason) => Decision([], Fatal(reason))
    case Success((computerId, currentPolicyId)) =>
      ComputerDecision(s, cveMap, hostname, computerId, currentPolicyId, policyName, cve, enableRules)
  }

  /** run from line 97 on, once the computer is known. */
  function ComputerDecision(s: Store, cveMap: map<string, seq<int>>, hostname: string,
                            computerId: int, currentPolicyId: Option<int>,
                            policyName: Option<string>, cve: string, enableRules: Option<bool>): (d: Decision)
    ensures |d.calls| <= 3
    ensures d.outcome.Response? ==> d.outcome.statusCode == 200 || d.outcome == Response(400, NoRulesFor(cve))
  {
    match ResolvePolicy(s, hostname, currentPolicyId, policyName)
    case Unresolved(reason) => Decision([], Fatal(reason))
    case Resolved(policyId, existing, created) =>
      var t := CveStepDecision(cveMap, cve, enableRules, computerId, currentPolicyId, policyId, existing);
      Decision(created + t.calls, t.outcome)
  }

  /** An `Op` object: the backend state it reads and changes through its
      base class, the log of state-changing calls it has made, and the CVE
      to rule map it builds when constructed. */
  class Op {
    var computers: seq<Computer>
    var policies: seq<Policy>
    var nextPolicyId: int
    /** Every state-changing backend call made so far, oldest first. */
    var calls: seq<Call>
    /** `cve_ips_map`, built by the base class from the rule catalog. */
    const cveIpsMap: map<string, seq<int>>

    function State(): Store
      reads this
    {
      Store(computers, policies, nextPolicyId)
    }

    ghost predicate Valid()
      reads this
    {
      WellFormed(State())
    }

    constructor (computers: seq<Computer>, policies: seq<Policy>, nextPolicyId: int,
                 cveIpsMap: map<string, seq<int>>)
      requires WellFormed(Store(computers, policies, nextPolicyId))
      ensures Valid()
      ensures State() == Store(computers, policies, nextPolicyId)
      ensures calls == [] && this.cveIpsMap == cveIpsMap
    {
      this.computers := computers;
      this.policies := policies;
      this.nextPolicyId := nextPolicyId;
      this.calls := [];
      this.cveIpsMap := cveIpsMap;
    }

    // The backend operations of the base class.

    method GetComputer(hostname: string) returns (r: Option<Computer>)
      ensures r.Some? <==> exists c :: c in computers && c.hostname == hostname
      ensures r == FindComputer(computers, hostname)
    {
      r := FindComputer(computers, hostname);
    }

    method GetPolicy(key: PolicyKey) returns (r: Option<Policy>)
      ensures r.Some? <==> exists p :: p in policies && Matches(p, key)
      ensures r == FindPolicy(policies, key)
    {
      r := FindPolicy(policies, key);
    }

    method CreatePolicy(name: string) returns (policyId: int)
      requires Valid()
      modifies this
      ensures Valid()
      ensures policyId == old(nextPolicyId) && forall p :: p in old(policies) ==> p.id != policyId
      ensures State() == Effect(old(State()), Call.CreatePolicy(name))
      ensures calls == old(calls) + [Call.CreatePolicy(name)]
    {
      policyId := nextPolicyId;
      policies := policies + [Policy(policyId, name, Some([]))];
      nextPolicyId := nextPolicyId + 1;
      calls := calls + [Call.CreatePolicy(name)];
    }

    method AddIpsRules(policyId: int, ruleIds: seq<int>)
      requires Valid()
      modifies this
      ensures Valid()
      ensures State() == Effect(old(State()), Call.AddIpsRules(policyId, ruleIds))
      ensures calls == old(calls) + [Call.AddIpsRules(policyId, ruleIds)]
    {
      policies := UpdateRules(policies, policyId, Add(ruleIds));
      calls := calls + [Call.AddIpsRules(policyId, ruleIds)];
    }

    method RemoveIpsRules(policyId: int, ruleIds: seq<int>)
      requires Valid()
      modifies this
      ensures Valid()
      ensures State() == Effect(old(State()), Call.RemoveIpsRules(policyId, ruleIds))
      ensures calls == old(calls) + [Call.RemoveIpsRules(policyId, ruleIds)]
    {
      policies := UpdateRules(policies, policyId, Remove(ruleIds));
      calls := calls + [Call.RemoveIpsRules(policyId, ruleIds)];
    }

    method SetComputerPolicyId(computerId: int, policyId: int)
      requires Valid()
      modifies this
      ensures Valid()
      ensures State() == Effect(old(State()), Call.SetComputerPolicyId(computerId, policyId))
      ensures calls == old(calls) + [Call.SetComputerPolicyId(computerId, policyId)]
    {
      computers := MoveComputers(computers, computerId, policyId);
      calls := calls + [Call.SetComputerPolicyId(computerId, policyId)];
    }

    // The methods of Op.

    method EnableIpsRules(computerId: int, currentPolicyId: Option<int>, policyId: int,
                          existing: Option<seq<int>>, cveRuleIds: seq<int>) returns (status: Outcome)
      requires Valid()
      modifies this
      ensures Valid()
      ensures var d := EnableDecision(computerId, currentPolicyId, policyId, existing, cveRuleIds);
              status == d.outcome && calls == old(calls) + d.calls && State() == EffectAll(old(State()), d.calls)
    {
      ghost var d := EnableDecision(computerId, currentPolicyId, policyId, existing, cveRuleIds);
      ghost var s0 := State();
      ghost var made: seq<Call> := [];
      var changed := false;
      var newRuleIds := MissingRuleIds(cveRuleIds, existing);
      if newRuleIds != {} {
        AddIpsRules(policyId, cveRuleIds);
        made := [Call.AddIpsRules(policyId, cveRuleIds)];
        EffectAllOne(s0, made[0]);
        changed := true;
      }
      if currentPolicyId == Some(policyId) {
      } else {
        ghost var s1 := State();
        SetComputerPolicyId(computerId, policyId);
        EffectAllOne(s1, Call.SetComputerPolicyId(computerId, policyId));
        EffectAllAppend(s0, made, [Call.SetComputerPolicyId(computerId, policyId)]);
        made := made + [Call.SetComputerPolicyId(computerId, policyId)];
        changed := true;
      }
      assert made == d.calls;
      var msg := if changed then PolicyChanged else NoPolicyChange;
      status := Response(200, msg);
    }

    method DisableIpsRules(policyId: int, existing: Option<seq<int>>, cveRuleIds: seq<int>) returns (status: Outcome)
      requires Valid()
      modifies this
      ensures Valid()
      ensures var d := DisableDecision(policyId, existing, cveRuleIds);
              status == d.outcome && calls == old(calls) + d.calls && State() == EffectAll(old(State()), d.calls)
    {
      if existing.None? {
        return Fatal(RulesNotIterable);
      }
      var rulesToRemove := RulesToRemove(existing.value, cveRuleIds);
      if rulesToRemove != {} {
        ghost var s0 := State();
        RemoveIpsRules(policyId, cveRuleIds);
        EffectAllOne(s0, Call.RemoveIpsRules(policyId, cveRuleIds));
        status := Response(200, RulesRemoved);
      } else {
        status := Response(200, RulesNotApplied);
      }
    }

    method GetComputerAndPolicyIds(hostname: string) returns (r: Result<(int, Option<int>), FatalReason>)
      ensures r == ComputerAndPolicyIds(computers, hostname)
    {
      var computer := GetComputer(hostname);
      if computer.None? {
        return Failure(ComputerNotFound(hostname));
      }
      r := Success((computer.value.id, computer.value.policyId));
    }

    /** Lines 97 to 125 of run: check the configuration, then find the
        policy by id or by name, creating a named one if needed. */
    method ResolveRunPolicy(hostname: string, currentPolicyId: Option<int>, policyName: Option<string>)
      returns (r: Resolution)
      requires Valid()
      modifies this
      ensures Valid()
      ensures r == ResolvePolicy(old(State()), hostname, currentPolicyId, policyName)
      ensures r.Unresolved? ==> State() == old(State()) && calls == old(calls)
      ensures r.Resolved? ==> calls == old(calls) + r.calls && State() == EffectAll(old(State()), r.calls)
    {
      if !IdIsSet(currentPolicyId) && !NameIsSet(policyName) {
        return Unresolved(MissingPolicyName(hostname));
      } else if !NameIsSet(policyName) {
        var policyId := currentPolicyId.value;
        var policy := GetPolicy(ById(policyId));
        if policy.None? {
          return Unresolved(PolicyNotFound(policyId));
        }
        return Resolved(policyId, policy.value.appliedRuleIds, []);
      }
      var policy := GetPolicy(ByName(policyName.value));
      if policy.Some? {
        return Resolved(policy.value.id, policy.value.appliedRuleIds, []);
      }
      ghost var s0 := State();
      var policyId := CreatePolicy(policyName.value);
      EffectAllOne(s0, Call.CreatePolicy(policyName.value));
      r := Resolved(policyId, Some([]), [Call.CreatePolicy(policyName.value)]);
    }

    /** Lines 127 to 155 of run: the CVE lookup, the selector and the
        dispatch to enable_ips_rules or disable_ips_rules. */
    method RunCveStep(cve: string, enableRules: Option<bool>, computerId: int, currentPolicyId: Option<int>,
                      policyId: int, existing: Option<seq<int>>) returns (status: Outcome)
      requires Valid()
      modifies this
      ensures Valid()
      ensures var d := CveStepDecision(cveIpsMap, cve, enableRules, computerId, currentPolicyId, policyId, existing);
              status == d.outcome && calls == old(calls) + d.calls && State() == EffectAll(old(State()), d.calls)
    {
      var cveRuleIds := LookupCveRules(cveIpsMap, cve);
      if cveRuleIds.None? {
        return Response(400, NoRulesFor(cve));
      }
      if enableRules.None? {
        return Fatal(InvalidEnableRules);
      }
      if enableRules.value {
        status := EnableIpsRules(computerId, currentPolicyId, policyId, existing, cveRuleIds.value);
      } else {
        status := DisableIpsRules(policyId, existing, cveRuleIds.value);
      }
    }

    /** run once get_computer_and_policy_ids has found the computer:
        lines 97 to 155. */
    method RunForComputer(hostname: string, computerId: int, currentPolicyId: Option<int>,
                          policyName: Option<string>, cve: string, enableRules: Option<bool>)
      returns (status: Outcome)
      requires Valid()
      modifies this
      ensures Valid()
      ensures var d := ComputerDecision(old(State()), cveIpsMap, hostname, computerId, currentPolicyId,
                                        policyName, cve, enableRules);
              status == d.outcome && calls == old(calls) + d.calls && State() == EffectAll(old(State()), d.calls)
    {
      ghost var s0 := State();
      ghost var log0 := calls;
      var resolution := ResolveRunPolicy(hostname, currentPolicyId, policyName);
      if resolution.Unresolved? {
        return Fatal(resolution.reason);
      }
      var policyId, existing := resolution.policyId, resolution.existing;
      status := RunCveStep(cve, enableRules, computerId, currentPolicyId, policyId, existing);
      ghost var t := CveStepDecision(cveIpsMap, cve, enableRules, computerId, currentPolicyId, policyId, existing);
      EffectAllAppend(s0, resolution.calls, t.calls);
      assert log0 + (resolution.calls + t.calls) == (log0 + resolution.calls) + t.calls;
    }

    method Run(hostname: string, policyName: Option<string>, cve: string, enableRules: Option<bool>)
      returns (status: Outcome)
      requires Valid()
      modifies this
      ensures Valid()
      ensures var d := RunDecision(old(State()), cveIpsMap, hostname, policyName, cve, enableRules);
              status == d.outcome && calls == old(calls) + d.calls && State() == EffectAll(old(State()), d.calls)
    {
      var ids := GetComputerAndPolicyIds(hostname);
      if ids.Failure? {
        return Fatal(ids.error);
      }
      var (computerId, currentPolicyId) := ids.value;
      status := RunForComputer(hostname, computerId, currentPolicyId, policyName, cve, enableRules);
    }
  }
}
