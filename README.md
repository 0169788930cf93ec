# DsOpenPatch IPS-rule reconciliation, modelled in Dafny

This project models the reconciliation engine of DsOpenPatch: class `Op` in
`code/dsop.py`. One invocation of `Op.run(hostname, policy_name, cve, enable_rules)` does four things:

1. It finds the computer by hostname.
2. It resolves the policy that governs the invocation: the policy named
   `policy_name`, created when no such policy exists, or else the computer's
   current policy.
3. It looks the CVE up in the CVE-to-IPS-rule map.
4. It either enables the CVE's rules, adding them to the policy and moving
   the computer onto that policy, or disables them by removing them from
   the policy.

Files:

- `wrappers.dfy`: `Option` and `Result`.
- `ds_backend.dfy` (module `DsBackend`): the security-management backend
  that `Op` inherits from.
  - Its state is the computers, the policies and the next policy id.
  - Its four state-changing calls are create a policy, add IPS rules,
    remove IPS rules and set a computer's policy. `Effect` and `EffectAll`
    give their assumed effect on that state.
  - Its two lookups, `get_computer` and `get_policy`, each return the
    first match.
- `dsop.dfy` (module `Dsop`) has two parts:
  - Pure decision functions. Given a backend state and the inputs, they say
    which backend calls an invocation makes, in order, and what it returns:
    `EnableDecision`, `DisableDecision`, `ComputerAndPolicyIds`,
    `ResolvePolicy`, `CveStepDecision` and `RunDecision`.
  - Class `Op`. Its fields are the backend state, the log of
    state-changing calls made so far, and `cveIpsMap`. Its methods do the
    same work step by step, as `dsop.py` does. Each method's `ensures`
    ties its status, its new call log and its new state to the matching
    decision function.
- `dsop_properties.dfy` (module `DsopProperties`): properties that relate
  several calls or several invocations. These are idempotence of enable and
  of disable, both per step and for whole invocations of `run`, the
  stability of policy resolution, and the cases of `run`.

An invocation that ends the process (`sys.exit`, or an exception the code
does not catch) is the outcome `Fatal(reason)`. A `json_response(code, msg)`
is `Response(code, msg)`. The response messages are the `Message`
datatype, and `Message.Text` gives the exact strings used in the code.

Three behaviours of `dsop.py` are easy to miss:

- **An unmapped CVE can follow a policy creation.** `run` creates a missing
  named policy (line 124) before it looks the CVE up (lines 127-135). An
  invocation with a new policy name and an unmapped CVE therefore creates
  the policy and then answers 400. `RunCreatesThenRejectsUnmappedCve`
  states this outcome. `RunUnmappedCve` states that no other call happens
  before the 400.
- **Rule ids are passed as the stored lists.** The CVE's rules go to the
  backend as the list stored in `cve_ips_map`, for example
  `add_ips_rules(policy_id, cve_ips_rule_ids)` on line 33. The model keeps
  sequences and forms sets where the code calls `set(...)` (lines 25 and
  63). It also forms one for the truthiness test on line 30, where the code
  tests the list: `MissingRuleIds` is a set, and it is empty exactly when
  the code's list is.
- **"No current policy" uses truthiness.** Line 97 tests the current policy
  id with `not`, so id 0 counts as no policy, as `None` does. `IdIsSet`
  models this. The same holds for an empty `policy_name` (`NameIsSet`) and
  an empty rule list (`RulesAreSet`).

## Model

| member | source | states |
|---|---|---|
| DsBackend.FindComputer | code/dsop.py:80 | `get_computer`: a found computer is in the backend with that hostname; `None` only when no computer has it |
| DsBackend.FindPolicy | code/dsop.py:108-118 | `get_policy` by id or by name: a found policy is in the backend and matches the key; `None` only when no policy matches |
| DsBackend.AddedRules | code/dsop.py:33 | assumed effect of `add_ips_rules` on a policy's rules: the new list holds exactly the old rules and the added ones (set union) |
| DsBackend.RemovedRules | code/dsop.py:66 | assumed effect of `remove_ips_rules`: the new list holds exactly the old rules that were not removed (set difference) |
| DsBackend.UpdateRules | code/dsop.py:33-66 | a rule change touches only the policy with that id: same length, ids and names kept, its rules changed as above, every other policy unchanged |
| DsBackend.MoveComputers | code/dsop.py:48 | `set_computer_policy_id`: only the computer with that id changes, and its policy becomes the given one; ids and hostnames kept |
| DsBackend.Effect | code/dsop.py:33-124 | one backend call keeps the store well formed (every policy id below the next id handed out, so a created policy's id is fresh) |
| DsBackend.EffectAll | code/dsop.py:33-124 | a sequence of calls made in order keeps the store well formed |
| DsBackend.EffectAllAppend | code/dsop.py:93-155 | making calls `a` and then calls `b` has the effect of making `a + b` |
| DsBackend.EffectAllOne | code/dsop.py:33-124 | a one-call log has the effect of that call |
| DsBackend.FindAfterUpdate | code/dsop.py:108-121 | after a rule change, `get_policy` finds the same policy as before, with its rules changed when it is the changed one |
| DsBackend.FindAfterAppend | code/dsop.py:118-124 | after a policy is created, a lookup finds it only when no older policy matches the key |
| DsBackend.FindComputerAfterMove | code/dsop.py:48-80 | after a reassignment, `get_computer` finds the same computer, now on the new policy when it is the moved one |
| Dsop.MissingRuleIds | code/dsop.py:23-28 | a rule is missing exactly when it is one of the CVE's rules and not applied to the policy; with no rules applied, all of the CVE's rules are missing |
| Dsop.RulesToRemove | code/dsop.py:63 | exactly the CVE's rules that are applied to the policy (the intersection) |
| Dsop.EnableDecision | code/dsop.py:19-60 | the full CVE rule list is added iff some rule is missing; the computer is moved iff its current policy differs; no other call and no call twice; the add comes before the move; 200 with "changes were completed" iff a call was made, else "no changes were required" |
| Dsop.DisableDecision | code/dsop.py:62-76 | the full CVE rule list is removed iff some of it is applied, otherwise nothing is called; never a move; 200 with the message matching the case; an absent rule list ends the process |
| Dsop.ComputerAndPolicyIds | code/dsop.py:78-91 | fails iff no computer has the hostname, and the failure is the fatal computer-not-found exit; on success, returns the id and current policy id of a computer with that hostname |
| Dsop.ResolvePolicy | code/dsop.py:97-125 | no current policy and no name exits; no name uses the current policy by id (exit when it does not exist); a name uses the policy found by name, or a created policy with no rules and the next id; only that case makes a call, a single create of that name |
| Dsop.LookupCveRules | code/dsop.py:128-130 | the CVE's rules are used iff the CVE is mapped to a non-empty list |
| Dsop.CveStepDecision | code/dsop.py:127-151 | 400 iff the CVE is unmapped, with no call; a selector that is neither true nor false exits; every response for a mapped CVE is 200; a mapped CVE with selector true is exactly `EnableDecision` on the CVE's rules, with false exactly `DisableDecision`; at most two calls, never a create; rule calls carry the full CVE list for the resolved policy; disable only removes, enable never removes |
| Dsop.ComputerDecision | code/dsop.py:97-155 | `run` once the computer is known: at most three calls, and every response is 200 or the 400 for this CVE (every case after the computer is found is stated in `DsopProperties.RunAfterLookup`; single cases in `RunMissingPolicyName`, `RunPolicyNotFound`, `RunUnmappedCve`, `RunCreatesThenRejectsUnmappedCve`, `RunCreatesThenRejectsSelector`, `RunCreatesThenDisablesNothing`, `RunDisableWithoutRuleList`, `RunEnableApplies`, `RunDisableRemoves`) |
| Dsop.RunDecision | code/dsop.py:93-155 | the calls and outcome of one `run`: an unknown hostname gives the computer-not-found exit with no call; at most three calls (its other properties are the `DsopProperties` lemmas on `run`, among them `RunEnableApplies` and `RunDisableRemoves` for the effect of a successful run) |
| Dsop.Op.constructor | code/dsop.py:13-17 | the object starts from the given backend state and CVE map, with an empty call log |
| Dsop.Op.GetComputer | code/dsop.py:80 | reads the computer found by hostname without changing anything |
| Dsop.Op.GetPolicy | code/dsop.py:108-118 | reads the policy found by key without changing anything |
| Dsop.Op.CreatePolicy | code/dsop.py:124 | returns a fresh id (no existing policy has it), appends the new empty policy and logs the call |
| Dsop.Op.AddIpsRules | code/dsop.py:33 | the state becomes the assumed effect of the add call, and the call is logged |
| Dsop.Op.RemoveIpsRules | code/dsop.py:66 | the state becomes the assumed effect of the remove call, and the call is logged |
| Dsop.Op.SetComputerPolicyId | code/dsop.py:48 | the state becomes the assumed effect of the reassignment, and the call is logged |
| Dsop.Op.EnableIpsRules | code/dsop.py:19-60 | the status, the calls made and the new state are those of `EnableDecision` |
| Dsop.Op.DisableIpsRules | code/dsop.py:62-76 | the status, the calls made and the new state are those of `DisableDecision` |
| Dsop.Op.GetComputerAndPolicyIds | code/dsop.py:78-91 | returns `ComputerAndPolicyIds` of the current computers |
| Dsop.Op.ResolveRunPolicy | code/dsop.py:97-125 | returns `ResolvePolicy` of the old state; an unresolved policy changes nothing; otherwise the new state and the log are those after the resolution's calls |
| Dsop.Op.RunCveStep | code/dsop.py:127-155 | the status, the calls made and the new state are those of `CveStepDecision` |
| Dsop.Op.RunForComputer | code/dsop.py:97-155 | once the computer is known, the status, the calls made and the new state are those `run` decides from line 97 on |
| Dsop.Op.Run | code/dsop.py:93-155 | the status, the calls made and the new state are those of `RunDecision` of the old state |
| DsopProperties.EnableTwiceNoChange | code/dsop.py:19-60 | enable applied again to the policy rules it left, with the computer on the policy, makes no call and reports no change |
| DsopProperties.DisableTwiceNoChange | code/dsop.py:62-76 | disable applied again to the policy rules it left makes no call and reports the rules as not applied |
| DsopProperties.EnableCoversRules | code/dsop.py:23-33 | after enable's calls, the policy's rule list holds every one of the CVE's rules |
| DsopProperties.DisableClearsRules | code/dsop.py:63-66 | after disable's calls, the policy's rule list holds none of the CVE's rules |
| DsopProperties.EnableEffect | code/dsop.py:30-50 | the store after enable's calls: the computer moved iff its policy differed, the rules added iff some were missing, nothing else changed |
| DsopProperties.DisableEffect | code/dsop.py:63-66 | the store after disable's calls: the rules removed iff some were applied, otherwise the same store |
| DsopProperties.RunComputerNotFound | code/dsop.py:78-95 | an unknown hostname ends `run` at once with the computer-not-found exit and no call |
| DsopProperties.RunMissingPolicyName | code/dsop.py:97-101 | a computer with no current policy and no policy name ends `run` with the configuration exit and no call |
| DsopProperties.RunUnmappedCve | code/dsop.py:127-135 | an unmapped CVE gives the 400 response unless `run` already exited, never the selector exit, and no call other than a policy creation |
| DsopProperties.RunCreatesThenRejectsUnmappedCve | code/dsop.py:115-135 | a found computer, a new non-empty policy name and an unmapped CVE: exactly one call, the creation of that policy, then the 400 response |
| DsopProperties.RunAfterLookup | code/dsop.py:97-151 | with the computer found: an unresolved policy exits with no call; otherwise the resolution's calls come first, followed by the 400 for an unmapped CVE, the selector exit, or exactly the calls and outcome of `EnableDecision` or `DisableDecision` on the CVE's rules |
| DsopProperties.RunPolicyNotFound | code/dsop.py:103-108 | a current policy id that no policy has, with no policy name, exits with `PolicyNotFound` and no call |
| DsopProperties.RunCreatesThenRejectsSelector | code/dsop.py:115-143 | a new policy name, a mapped CVE and a rejected selector: the policy is created, then the selector exit |
| DsopProperties.RunCreatesThenDisablesNothing | code/dsop.py:115-151 | a new policy name with a disabling run: the policy is created, nothing is removed, and the answer is 200 "rules are not applied" |
| DsopProperties.RunDisableWithoutRuleList | code/dsop.py:63 | a disabling run on a found policy with no rule list exits with `RulesNotIterable` and no call |
| DsopProperties.RunStatusCodes | code/dsop.py:127-155 | every response of `run` is 200 when the CVE is mapped and the 400 response otherwise |
| DsopProperties.RunDisableNeverMoves | code/dsop.py:149-151 | an invocation with `enable_rules` false never moves the computer and never adds rules |
| DsopProperties.RunCalls | code/dsop.py:93-155 | `run` makes at most three calls; a create is of the given name, only when no policy has that name; rule calls carry the CVE's whole list; an enable never removes |
| DsopProperties.ResolveIsStable | code/dsop.py:97-125 | resolving again after the resolution's own calls finds the same policy with the same rules and creates nothing |
| DsopProperties.ResolveAfterRuleChange | code/dsop.py:103-121 | after a rule change to the resolved policy, resolving again finds it with the changed rules |
| DsopProperties.StateAfterEnableRun | code/dsop.py:93-155 | after an enabling `run`, the next `run` finds the computer on the resolved policy, and that policy carries the CVE's rules |
| DsopProperties.RunEnableApplies | code/dsop.py:93-147 | a 200 enabling `run` makes the resolution's calls and then those of `EnableDecision` on the CVE's rules, and answers with `EnableDecision`'s outcome; afterwards the computer is on the resolved policy, and that policy, resolved again, holds every one of the CVE's rules |
| DsopProperties.RunEnableTwiceNoChange | code/dsop.py:93-155 | a second identical enabling `run` after a successful one makes no call and reports that no change was required |
| DsopProperties.RunDisableRemoves | code/dsop.py:93-151 | a 200 disabling `run` makes the resolution's calls and then those of `DisableDecision` on the CVE's rules, and answers with `DisableDecision`'s outcome; afterwards the computer has not moved, and the policy, resolved again, holds none of the CVE's rules |
| DsopProperties.RunDisableTwiceNoChange | code/dsop.py:93-155 | a second identical disabling `run` after a successful one makes no call and reports that the rules are not applied |

## Left out

- The `onnds.Ds` base class is not part of this model. The meaning of its calls is assumed, not derived:
  - `get_computer` and `get_policy` return the first match in backend order;
  - `add_ips_rules` is a set union and `remove_ips_rules` a set difference on the policy's rule list;
  - `create_policy` hands out the next unused id and creates a policy with no rules applied;
  - `get_applied_ips_rules` returns the policy's list, or `None` when the backend records none.
- `get_ips_rules` and `get_cve_ips_map` are not modelled. They read the backend's rule catalog, and the CVE-to-rule map is a constructor parameter instead.
- `lambda_handler` is not modelled. It covers SNS payload unwrapping, upper-casing the CVE, the `enable_rules` default and its lower-casing, logger setup and `print`.
- `run`'s own default `enable_rules=True` (line 93) is not modelled. The model takes the selector already parsed, as an `Option<bool>`.
- `str_to_bool`, which belongs to the base class, is modelled by its result only: `Some(true)`, `Some(false)` or `None` for a value it rejects. `None` is modelled as an exit, `Fatal(InvalidEnableRules)`. Lines 142-143 only hand the message to `str_to_bool`. That it is logged and ends the process is assumed about the base class.
- Log output is not modelled: every `logger.entry` call and `_join_ints_as_str`. For the same reason `EnableIpsRules` takes no `hostname` or `policy_name`: they only feed log text.
- The text of the `ValueError` that `get_computer` raises belongs to the base class. `FatalReason.Text` leaves it unspecified.
- A `get_policy` by id that finds nothing is modelled as the exit `Fatal(PolicyNotFound)`. The base class decides what actually happens. The code does not catch it at line 108.
- `disable_ips_rules` on a policy with no rule list computes `set(None)`, which raises. This is modelled as the exit `Fatal(RulesNotIterable)`.
- `run` is not modelled for a hostname of `None`, because hostnames are strings here.
- Network failures, backend errors other than those above, timeouts and concurrent invocations are not modelled.
- The warnings filter at import time (lines 6-7) is not modelled.
