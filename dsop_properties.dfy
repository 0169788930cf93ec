/** Properties of the reconciliation engine that relate several
    invocations, or that follow the whole of `run` through its steps. */
module DsopProperties {
  import opened Wrappers
  import opened DsBackend
  import opened Dsop

  // ---- Enable and disable, one decision at a time ----

  /** The rule list a policy has after the calls of an enable decision. */
  function RulesAfterEnable(existing: Option<seq<int>>, cveRuleIds: seq<int>): Option<seq<int>>
  {
    if MissingRuleIds(cveRuleIds, existing) != {} then Changed(existing, Add(cveRuleIds)) else existing
  }

  /** The rule list a policy has after the calls of a disable decision. */
  function RulesAfterDisable(existing: Option<seq<int>>, cveRuleIds: seq<int>): Option<seq<int>>
    requires existing.Some?
  {
    if RulesToRemove(existing.value, cveRuleIds) != {} then Changed(existing, Remove(cveRuleIds)) else existing
  }

  /** Once enable has run, with add behaving as set union, nothing is
      missing any more and the computer is on the policy: a second enable
      makes no call and reports that no change was required. */
  lemma EnableTwiceNoChange(computerId: int, policyId: int,
                            existing: Option<seq<int>>, cveRuleIds: seq<int>)
    ensures EnableDecision(computerId, Some(policyId), policyId, RulesAfterEnable(existing, cveRuleIds), cveRuleIds)
            == Decision([], Response(200, NoPolicyChange))
  {
    var after := RulesAfterEnable(existing, cveRuleIds);
    if MissingRuleIds(cveRuleIds, existing) != {} {
      assert cveRuleIds != [];
      assert cveRuleIds[0] in after.value;
      assert RulesAreSet(after);
      assert MissingRuleIds(cveRuleIds, after) == {};
    }
  }

  /** Once disable has run, with remove behaving as set difference, none of
      the CVE's rules is applied: a second disable makes no call and reports
      that the rules are not applied. */
  lemma DisableTwiceNoChange(policyId: int, existing: Option<seq<int>>, cveRuleIds: seq<int>)
    requires existing.Some?
    ensures DisableDecision(policyId, RulesAfterDisable(existing, cveRuleIds), cveRuleIds)
            == Decision([], Response(200, RulesNotApplied))
  {
    var after := RulesAfterDisable(existing, cveRuleIds);
    assert RulesToRemove(after.value, cveRuleIds) == {};
  }

  /** The backend state after the calls of an enable decision. */
  lemma EnableEffect(s: Store, computerId: int, currentPolicyId: Option<int>, policyId: int,
                     existing: Option<seq<int>>, cveRuleIds: seq<int>)
    ensures EffectAll(s, EnableDecision(computerId, currentPolicyId, policyId, existing, cveRuleIds).calls)
            == Store(if currentPolicyId != Some(policyId) then MoveComputers(s.computers, computerId, policyId)
                     else s.computers,
                     if MissingRuleIds(cveRuleIds, existing) != {} then UpdateRules(s.policies, policyId, Add(cveRuleIds))
                     else s.policies,
                     s.nextPolicyId)
  {
    var add := Call.AddIpsRules(policyId, cveRuleIds);
    var move := Call.SetComputerPolicyId(computerId, policyId);
    var calls := EnableDecision(computerId, currentPolicyId, policyId, existing, cveRuleIds).calls;
    if MissingRuleIds(cveRuleIds, existing) != {} && currentPolicyId != Some(policyId) {
      assert calls == [add] + [move];
      EffectAllAppend(s, [add], [move]);
      EffectAllOne(s, add);
      EffectAllOne(Effect(s, add), move);
    } else if MissingRuleIds(cveRuleIds, existing) != {} {
      assert calls == [add];
      EffectAllOne(s, add);
    } else if currentPolicyId != Some(policyId) {
      assert calls == [move];
      EffectAllOne(s, move);
    } else {
      assert calls == [];
    }
  }

  /** After enable's calls the policy carries every one of the CVE's rules. */
  lemma EnableCoversRules(existing: Option<seq<int>>, cveRuleIds: seq<int>)
    requires cveRuleIds != []
    ensures RulesAfterEnable(existing, cveRuleIds).Some?
    ensures forall x :: x in cveRuleIds ==> x in RulesAfterEnable(existing, cveRuleIds).value
  {
    if MissingRuleIds(cveRuleIds, existing) == {} {
      assert cveRuleIds[0] in Elems(cveRuleIds);
    }
  }

  /** After disable's calls the policy carries none of the CVE's rules. */
  lemma DisableClearsRules(existing: Option<seq<int>>, cveRuleIds: seq<int>)
    requires existing.Some?
    ensures RulesAfterDisable(existing, cveRuleIds).Some?
    ensures forall x :: x in cveRuleIds ==> x !in RulesAfterDisable(existing, cveRuleIds).value
  {
  }

  /** The backend state after the calls of a disable decision. */
  lemma DisableEffect(s: Store, policyId: int, existing: Option<seq<int>>, cveRuleIds: seq<int>)
    requires existing.Some?
    ensures EffectAll(s, DisableDecision(policyId, existing, cveRuleIds).calls)
            == if RulesToRemove(existing.value, cveRuleIds) != {}
               then s.(policies := UpdateRules(s.policies, policyId, Remove(cveRuleIds)))
               else s
  {
    if RulesToRemove(existing.value, cveRuleIds) != {} {
      EffectAllOne(s, Call.RemoveIpsRules(policyId, cveRuleIds));
    }
  }

  // ---- One invocation of run ----

  /** A hostname no computer has ends the invocation at once. */
  lemma RunComputerNotFound(s: Store, cveMap: map<string, seq<int>>, hostname: string,
                            policyName: Option<string>, cve: string, enableRules: Option<bool>)
    requires forall c :: c in s.computers ==> c.hostname != hostname
    ensures RunDecision(s, cveMap, hostname, policyName, cve, enableRules)
            == Decision([], Fatal(ComputerNotFound(hostname)))
  {
  }

  /** A computer with no policy (no id, or id 0) and no policy name ends
      the invocation before any policy is looked up or created. */
  lemma RunMissingPolicyName(s: Store, cveMap: map<string, seq<int>>, hostname: string,
                             policyName: Option<string>, cve: string, enableRules: Option<bool>)
    requires FindComputer(s.computers, hostname).Some?
    requires !IdIsSet(FindComputer(s.computers, hostname).value.policyId)
    requires policyName.None? || policyName == Some("")
    ensures RunDecision(s, cveMap, hostname, policyName, cve, enableRules)
            == Decision([], Fatal(MissingPolicyName(hostname)))
  {
  }

  /** A CVE that is unmapped, or mapped to no rules, gives the 400 response
      unless the invocation already ended; no rule is added or removed and
      no computer moved (a policy may have been created), and the selector
      is never examined. */
  lemma RunUnmappedCve(s: Store, cveMap: map<string, seq<int>>, hostname: string,
                       policyName: Option<string>, cve: string, enableRules: Option<bool>)
    requires cve !in cveMap || cveMap[cve] == []
    ensures var d := RunDecision(s, cveMap, hostname, policyName, cve, enableRules);
            && (d.outcome.Fatal? || d.outcome == Response(400, NoRulesFor(cve)))
            && d.outcome != Fatal(InvalidEnableRules)
            && (forall c :: c in d.calls ==> c.CreatePolicy?)
  {
  }

  /** A new policy name and an unmapped CVE: `run` creates the policy and
      then gives the 400 response, whatever the selector says. */
  lemma RunCreatesThenRejectsUnmappedCve(s: Store, cveMap: map<string, seq<int>>, hostname: string,
                                         name: string, cve: string, enableRules: Option<bool>)
    requires FindComputer(s.computers, hostname).Some?
    requires name != "" && forall p :: p in s.policies ==> p.name != name
    requires cve !in cveMap || cveMap[cve] == []
    ensures RunDecision(s, cveMap, hostname, Some(name), cve, enableRules)
            == Decision([CreatePolicy(name)], Response(400, NoRulesFor(cve)))
  {
  }

  /** Every case of `run` once the computer is found: an unresolved policy
      exits with no call; otherwise the resolution's calls come first and
      are followed by the 400 response, the selector exit, or the calls and
      outcome of enable or disable on the CVE's rules. */
  lemma RunAfterLookup(s: Store, cveMap: map<string, seq<int>>, hostname: string,
                       policyName: Option<string>, cve: string, enableRules: Option<bool>)
    requires FindComputer(s.computers, hostname).Some?
    ensures var c := FindComputer(s.computers, hostname).value;
            var r := ResolvePolicy(s, hostname, c.policyId, policyName);
            var d := RunDecision(s, cveMap, hostname, policyName, cve, enableRules);
            var mapped := cve in cveMap && cveMap[cve] != [];
            && (r.Unresolved? ==> d == Decision([], Fatal(r.reason)))
            && (r.Resolved? && !mapped ==> d == Decision(r.calls, Response(400, NoRulesFor(cve))))
            && (r.Resolved? && mapped && enableRules.None? ==> d == Decision(r.calls, Fatal(InvalidEnableRules)))
            && (r.Resolved? && mapped && enableRules == Some(true) ==>
                  var e := EnableDecision(c.id, c.policyId, r.policyId, r.existing, cveMap[cve]);
                  d == Decision(r.calls + e.calls, e.outcome))
            && (r.Resolved? && mapped && enableRules == Some(false) ==>
                  var e := DisableDecision(r.policyId, r.existing, cveMap[cve]);
                  d == Decision(r.calls + e.calls, e.outcome))
  {
  }

  /** A current policy id that no policy has, with no policy name, ends
      `run` with no call (the lookup by id on line 108 fails). */
  lemma RunPolicyNotFound(s: Store, cveMap: map<string, seq<int>>, hostname: string,
                          policyName: Option<string>, cve: string, enableRules: Option<bool>)
    requires FindComputer(s.computers, hostname).Some?
    requires IdIsSet(FindComputer(s.computers, hostname).value.policyId)
    requires !NameIsSet(policyName)
    requires forall p :: p in s.policies ==> p.id != FindComputer(s.computers, hostname).value.policyId.value
    ensures RunDecision(s, cveMap, hostname, policyName, cve, enableRules)
            == Decision([], Fatal(PolicyNotFound(FindComputer(s.computers, hostname).value.policyId.value)))
  {
  }

  /** A new policy name, a mapped CVE and a rejected selector: `run`
      creates the policy and only then exits on the selector. */
  lemma RunCreatesThenRejectsSelector(s: Store, cveMap: map<string, seq<int>>, hostname: string,
                                      name: string, cve: string)
    requires FindComputer(s.computers, hostname).Some?
    requires name != "" && forall p :: p in s.policies ==> p.name != name
    requires cve in cveMap && cveMap[cve] != []
    ensures RunDecision(s, cveMap, hostname, Some(name), cve, None)
            == Decision([CreatePolicy(name)], Fatal(InvalidEnableRules))
  {
  }

  /** A new policy name with a disabling `run`: the created policy has no
      rules, so nothing is removed and the answer is that the rules are not
      applied. */
  lemma RunCreatesThenDisablesNothing(s: Store, cveMap: map<string, seq<int>>, hostname: string,
                                      name: string, cve: string)
    requires FindComputer(s.computers, hostname).Some?
    requires name != "" && forall p :: p in s.policies ==> p.name != name
    requires cve in cveMap && cveMap[cve] != []
    ensures RunDecision(s, cveMap, hostname, Some(name), cve, Some(false))
            == Decision([CreatePolicy(name)], Response(200, RulesNotApplied))
  {
  }

  /** A disabling `run` on a found policy that has no rule list ends with
      the exit of `set(None)` on line 63, and makes no call. */
  lemma RunDisableWithoutRuleList(s: Store, cveMap: map<string, seq<int>>, hostname: string,
                                  policyName: Option<string>, cve: string)
    requires FindComputer(s.computers, hostname).Some?
    requires ResolvePolicy(s, hostname, FindComputer(s.computers, hostname).value.policyId, policyName)
               .Resolved?
    requires ResolvePolicy(s, hostname, FindComputer(s.computers, hostname).value.policyId, policyName)
               .existing.None?
    requires cve in cveMap && cveMap[cve] != []
    ensures RunDecision(s, cveMap, hostname, policyName, cve, Some(false))
            == Decision([], Fatal(RulesNotIterable))
  {
  }

  /** The 400 response is given only for an unmapped CVE; every other
      response is a 200. */
  lemma RunStatusCodes(s: Store, cveMap: map<string, seq<int>>, hostname: string,
                       policyName: Option<string>, cve: string, enableRules: Option<bool>)
    ensures var d := RunDecision(s, cveMap, hostname, policyName, cve, enableRules);
            d.outcome.Response? ==>
              if cve in cveMap && cveMap[cve] != [] then d.outcome.statusCode == 200
              else d.outcome == Response(400, NoRulesFor(cve))
  {
  }

  /** A disable invocation never moves the computer and never adds rules. */
  lemma RunDisableNeverMoves(s: Store, cveMap: map<string, seq<int>>, hostname: string,
                             policyName: Option<string>, cve: string)
    ensures var d := RunDecision(s, cveMap, hostname, policyName, cve, Some(false));
            forall c :: c in d.calls ==> !c.SetComputerPolicyId? && !c.AddIpsRules?
  {
  }

  /** The calls one invocation can make: at most one policy creation, and
      only of a named policy that does not exist; rule calls that carry the
      CVE's full rule list for the resolved policy; at most three calls. */
  lemma RunCalls(s: Store, cveMap: map<string, seq<int>>, hostname: string,
                 policyName: Option<string>, cve: string, enableRules: Option<bool>)
    ensures var d := RunDecision(s, cveMap, hostname, policyName, cve, enableRules);
            && |d.calls| <= 3
            && (forall c :: c in d.calls && c.CreatePolicy? ==>
                  NameIsSet(policyName) && c.name == policyName.value
                  && forall p :: p in s.policies ==> p.name != policyName.value)
            && (forall c :: c in d.calls && (c.AddIpsRules? || c.RemoveIpsRules?) ==>
                  cve in cveMap && c.ruleIds == cveMap[cve])
            && (enableRules == Some(true) ==> forall c :: c in d.calls ==> !c.RemoveIpsRules?)
  {
  }

  // ---- Policy resolution across invocations ----

  /** Resolving again after the calls of a resolution finds the same policy
      with the same rules and creates nothing, even when the computer's
      current policy has changed, provided a policy name is given; a created
      policy is the one found by name the second time. */
  lemma ResolveIsStable(s: Store, hostname: string, currentPolicyId: Option<int>, laterPolicyId: Option<int>,
                        policyName: Option<string>)
    requires ResolvePolicy(s, hostname, currentPolicyId, policyName).Resolved?
    requires NameIsSet(policyName) || laterPolicyId == currentPolicyId
    ensures var r := ResolvePolicy(s, hostname, currentPolicyId, policyName);
            ResolvePolicy(EffectAll(s, r.calls), hostname, laterPolicyId, policyName)
              == Resolved(r.policyId, r.existing, [])
  {
    var r := ResolvePolicy(s, hostname, currentPolicyId, policyName);
    if r.calls != [] {
      var created := Policy(s.nextPolicyId, policyName.value, Some([]));
      EffectAllOne(s, Call.CreatePolicy(policyName.value));
      FindAfterAppend(s.policies, ByName(policyName.value), created);
    }
  }

  /** A rule change on the resolved policy shows in the next resolution. */
  lemma ResolveAfterRuleChange(s: Store, hostname: string, currentPolicyId: Option<int>,
                               policyName: Option<string>, change: RuleChange)
    requires ResolvePolicy(s, hostname, currentPolicyId, policyName).Resolved?
    requires ResolvePolicy(s, hostname, currentPolicyId, policyName).calls == []
    ensures var r := ResolvePolicy(s, hostname, currentPolicyId, policyName);
            ResolvePolicy(s.(policies := UpdateRules(s.policies, r.policyId, change)), hostname, currentPolicyId, policyName)
              == Resolved(r.policyId, Changed(r.existing, change), [])
  {
    var r := ResolvePolicy(s, hostname, currentPolicyId, policyName);
    if NameIsSet(policyName) {
      FindAfterUpdate(s.policies, ByName(policyName.value), r.policyId, change);
    } else {
      FindAfterUpdate(s.policies, ById(currentPolicyId.value), r.policyId, change);
    }
  }

  // ---- Whole invocations ----

  /** After the calls of a successful enable invocation, the next
      invocation finds the same computer, now on the resolved policy, and
      resolves the same policy, now carrying the CVE's rules. */
  lemma StateAfterEnableRun(s: Store, hostname: string, policyName: Option<string>, c: Computer,
                            cveRuleIds: seq<int>)
    requires FindComputer(s.computers, hostname) == Some(c)
    requires ResolvePolicy(s, hostname, c.policyId, policyName).Resolved?
    ensures var r := ResolvePolicy(s, hostname, c.policyId, policyName);
            var e := EnableDecision(c.id, c.policyId, r.policyId, r.existing, cveRuleIds);
            var s2 := EffectAll(s, r.calls + e.calls);
            ComputerAndPolicyIds(s2.computers, hostname) == Success((c.id, Some(r.policyId)))
            && ResolvePolicy(s2, hostname, Some(r.policyId), policyName)
               == Resolved(r.policyId, RulesAfterEnable(r.existing, cveRuleIds), [])
  {
    var r := ResolvePolicy(s, hostname, c.policyId, policyName);
    var pid := r.policyId;
    var e := EnableDecision(c.id, c.policyId, pid, r.existing, cveRuleIds);
    var s1 := EffectAll(s, r.calls);
    EffectAllAppend(s, r.calls, e.calls);
    var s2 := EffectAll(s1, e.calls);
    EnableEffect(s1, c.id, c.policyId, pid, r.existing, cveRuleIds);
    assert s1.computers == s.computers by {
      if r.calls != [] { EffectAllOne(s, r.calls[0]); }
    }
    FindComputerAfterMove(s.computers, hostname, c.id, pid);
    assert FindComputer(s2.computers, hostname) == Some(c.(policyId := Some(pid)));

    assert NameIsSet(policyName) || c.policyId == Some(pid);
    ResolveIsStable(s, hostname, c.policyId, Some(pid), policyName);
    if MissingRuleIds(cveRuleIds, r.existing) != {} {
      ResolveAfterRuleChange(s1, hostname, Some(pid), policyName, Add(cveRuleIds));
    }
  }

  /** What a successful enabling `run` leaves behind: its calls are those of
      the policy resolution followed by those of `EnableDecision` on the
      CVE's rules; afterwards the computer is on the resolved policy, and
      that policy, resolved again, carries every one of the CVE's rules. */
  lemma RunEnableApplies(s: Store, cveMap: map<string, seq<int>>, hostname: string,
                         policyName: Option<string>, cve: string)
    requires RunDecision(s, cveMap, hostname, policyName, cve, Some(true)).outcome.Response?
    requires RunDecision(s, cveMap, hostname, policyName, cve, Some(true)).outcome.statusCode == 200
    ensures FindComputer(s.computers, hostname).Some? && cve in cveMap
    ensures var c := FindComputer(s.computers, hostname).value;
            var r := ResolvePolicy(s, hostname, c.policyId, policyName);
            var first := RunDecision(s, cveMap, hostname, policyName, cve, Some(true));
            var s2 := EffectAll(s, first.calls);
            var again := ResolvePolicy(s2, hostname, Some(r.policyId), policyName);
            && r.Resolved?
            && first.calls == r.calls + EnableDecision(c.id, c.policyId, r.policyId, r.existing, cveMap[cve]).calls
            && first.outcome == EnableDecision(c.id, c.policyId, r.policyId, r.existing, cveMap[cve]).outcome
            && ComputerAndPolicyIds(s2.computers, hostname) == Success((c.id, Some(r.policyId)))
            && again == Resolved(r.policyId, RulesAfterEnable(r.existing, cveMap[cve]), [])
            && again.existing.Some?
            && forall x :: x in cveMap[cve] ==> x in again.existing.value
  {
    var c := FindComputer(s.computers, hostname).value;
    var r := ResolvePolicy(s, hostname, c.policyId, policyName);
    var cveRuleIds := LookupCveRules(cveMap, cve).value;
    var e := EnableDecision(c.id, c.policyId, r.policyId, r.existing, cveRuleIds);
    assert RunDecision(s, cveMap, hostname, policyName, cve, Some(true)).calls == r.calls + e.calls;
    StateAfterEnableRun(s, hostname, policyName, c, cveRuleIds);
    EnableCoversRules(r.existing, cveRuleIds);
  }

  /** Running the same enable invocation twice: once the first has
      succeeded, the second finds nothing to add and the computer already on
      the policy, makes no call and reports that no change was required. */
  lemma RunEnableTwiceNoChange(s: Store, cveMap: map<string, seq<int>>, hostname: string,
                               policyName: Option<string>, cve: string)
    requires RunDecision(s, cveMap, hostname, policyName, cve, Some(true)).outcome.Response?
    requires RunDecision(s, cveMap, hostname, policyName, cve, Some(true)).outcome.statusCode == 200
    ensures var first := RunDecision(s, cveMap, hostname, policyName, cve, Some(true));
            RunDecision(EffectAll(s, first.calls), cveMap, hostname, policyName, cve, Some(true))
              == Decision([], Response(200, NoPolicyChange))
  {
    var c := FindComputer(s.computers, hostname).value;
    var r := ResolvePolicy(s, hostname, c.policyId, policyName);
    var cveRuleIds := LookupCveRules(cveMap, cve).value;
    var e := EnableDecision(c.id, c.policyId, r.policyId, r.existing, cveRuleIds);
    assert RunDecision(s, cveMap, hostname, policyName, cve, Some(true)).calls == r.calls + e.calls;
    StateAfterEnableRun(s, hostname, policyName, c, cveRuleIds);
    EnableTwiceNoChange(c.id, r.policyId, r.existing, cveRuleIds);
  }

  /** What a successful disabling `run` leaves behind: its calls are those
      of the policy resolution followed by those of `DisableDecision` on the
      CVE's rules; afterwards the computer has not moved, and the policy,
      resolved again, carries none of the CVE's rules. */
  lemma RunDisableRemoves(s: Store, cveMap: map<string, seq<int>>, hostname: string,
                          policyName: Option<string>, cve: string)
    requires RunDecision(s, cveMap, hostname, policyName, cve, Some(false)).outcome.Response?
    requires RunDecision(s, cveMap, hostname, policyName, cve, Some(false)).outcome.statusCode == 200
    ensures FindComputer(s.computers, hostname).Some? && cve in cveMap
    ensures var c := FindComputer(s.computers, hostname).value;
            var r := ResolvePolicy(s, hostname, c.policyId, policyName);
            var first := RunDecision(s, cveMap, hostname, policyName, cve, Some(false));
            var s2 := EffectAll(s, first.calls);
            var again := ResolvePolicy(s2, hostname, c.policyId, policyName);
            && r.Resolved? && r.existing.Some?
            && first.calls == r.calls + DisableDecision(r.policyId, r.existing, cveMap[cve]).calls
            && first.outcome == DisableDecision(r.policyId, r.existing, cveMap[cve]).outcome
            && ComputerAndPolicyIds(s2.computers, hostname) == Success((c.id, c.policyId))
            && again == Resolved(r.policyId, RulesAfterDisable(r.existing, cveMap[cve]), [])
            && again.existing.Some?
            && forall x :: x in cveMap[cve] ==> x !in again.existing.value
  {
    var first := RunDecision(s, cveMap, hostname, policyName, cve, Some(false));
    var c := FindComputer(s.computers, hostname).value;
    var r := ResolvePolicy(s, hostname, c.policyId, policyName);
    var cveRuleIds := LookupCveRules(cveMap, cve).value;
    var pid := r.policyId;
    var e := DisableDecision(pid, r.existing, cveRuleIds);
    assert first == Decision(r.calls + e.calls, e.outcome);
    assert r.existing.Some?;

    var s1 := EffectAll(s, r.calls);
    EffectAllAppend(s, r.calls, e.calls);
    var s2 := EffectAll(s1, e.calls);
    DisableEffect(s1, pid, r.existing, cveRuleIds);
    assert s1.computers == s.computers by {
      if r.calls != [] { EffectAllOne(s, r.calls[0]); }
    }
    assert ComputerAndPolicyIds(s2.computers, hostname) == Success((c.id, c.policyId));

    ResolveIsStable(s, hostname, c.policyId, c.policyId, policyName);
    if RulesToRemove(r.existing.value, cveRuleIds) != {} {
      ResolveAfterRuleChange(s1, hostname, c.policyId, policyName, Remove(cveRuleIds));
    }
    DisableClearsRules(r.existing, cveRuleIds);
  }

  /** Running the same disable invocation twice: once the first has
      succeeded, none of the CVE's rules is applied, so the second makes no
      call and reports that the rules are not applied. */
  lemma RunDisableTwiceNoChange(s: Store, cveMap: map<string, seq<int>>, hostname: string,
                                policyName: Option<string>, cve: string)
    requires RunDecision(s, cveMap, hostname, policyName, cve, Some(false)).outcome.Response?
    requires RunDecision(s, cveMap, hostname, policyName, cve, Some(false)).outcome.statusCode == 200
    ensures var first := RunDecision(s, cveMap, hostname, policyName, cve, Some(false));
            RunDecision(EffectAll(s, first.calls), cveMap, hostname, policyName, cve, Some(false))
              == Decision([], Response(200, RulesNotApplied))
  {
    RunDisableRemoves(s, cveMap, hostname, policyName, cve);
    var c := FindComputer(s.computers, hostname).value;
    var r := ResolvePolicy(s, hostname, c.policyId, policyName);
    DisableTwiceNoChange(r.policyId, r.existing, cveMap[cve]);
  }
}
