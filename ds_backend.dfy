/** The security-management backend that `Op` inherits from (the `onnds.Ds`
    base class), reduced to the state the reconciliation engine reads and the
    four mutation calls it makes.  The semantics given to the calls here are
    assumptions about the backend: adding rules is a set union, removing
    rules is a set difference. */
module DsBackend {
  import opened Wrappers

  /** A managed endpoint as `get_computer` returns it. */
  datatype Computer = Computer(id: int, hostname: string, policyId: Option<int>)

  /** A security policy; `appliedRuleIds` is what `get_applied_ips_rules`
      returns for it, `None` when the backend records no list at all. */
  datatype Policy = Policy(id: int, name: string, appliedRuleIds: Option<seq<int>>)

  /** The two ways `get_policy` is asked for a policy: by id or by name. */
  datatype PolicyKey = ById(id: int) | ByName(name: string)

  /** The state-changing backend calls, as they appear in the call log. */
  datatype Call =
    | CreatePolicy(name: string)
    | AddIpsRules(policyId: int, ruleIds: seq<int>)
    | RemoveIpsRules(policyId: int, ruleIds: seq<int>)
    | SetComputerPolicyId(computerId: int, policyId: int)

  /** A change to the rule list of one policy. */
  datatype RuleChange = Add(ids: seq<int>) | Remove(ids: seq<int>)

  /** What the backend holds: its computers and policies in the order its
      searches return them, and the id the next created policy receives. */
  datatype Store = Store(computers: seq<Computer>, policies: seq<Policy>, nextPolicyId: int)

  /** Every policy id is below the next id to be handed out, so a created
      policy never shares its id with an existing one. */
  ghost predicate WellFormed(s: Store)
  {
    forall p :: p in s.policies ==> p.id < s.nextPolicyId
  }

  function Elems(s: seq<int>): set<int>
  {
    set x | x in s
  }

  /** An absent rule list reads as an empty one. */
  function AppliedOrEmpty(applied: Option<seq<int>>): seq<int>
  {
    if applied.Some? then applied.value else []
  }

  /** The elements of `s`, in order, that are not in `drop`. */
  function Without(s: seq<int>, drop: set<int>): (r: seq<int>)
    ensures forall x :: x in r <==> x in s && x !in drop
    ensures |r| <= |s|
  {
    if s == [] then []
    else if s[0] in drop then Without(s[1..], drop)
    else [s[0]] + Without(s[1..], drop)
  }

  /** The applied list after `add_ips_rules`: the old list followed by the
      added ids it did not yet hold. */
  function AddedRules(applied: Option<seq<int>>, ids: seq<int>): (r: seq<int>)
    ensures forall x :: x in r <==> x in AppliedOrEmpty(applied) || x in ids
  {
    AppliedOrEmpty(applied) + Without(ids, Elems(AppliedOrEmpty(applied)))
  }

  /** The applied list after `remove_ips_rules`: the old list without the
      removed ids. */
  function RemovedRules(applied: Option<seq<int>>, ids: seq<int>): (r: seq<int>)
    ensures forall x :: x in r <==> x in AppliedOrEmpty(applied) && x !in ids
  {
    Without(AppliedOrEmpty(applied), Elems(ids))
  }

  function Changed(applied: Option<seq<int>>, change: RuleChange): Option<seq<int>>
  {
    match change
    case Add(ids) => Some(AddedRules(applied, ids))
    case Remove(ids) => Some(RemovedRules(applied, ids))
  }

  predicate Matches(p: Policy, key: PolicyKey)
  {
    match key
    case ById(id) => p.id == id
    case ByName(name) => p.name == name
  }

  /** `get_policy`: the first policy the key matches, `None` when no
      policy matches. */
  function FindPolicy(ps: seq<Policy>, key: PolicyKey): (r: Option<Policy>)
    ensures r.Some? ==> r.value in ps && Matches(r.value, key)
    ensures r.None? ==> forall p :: p in ps ==> !Matches(p, key)
  {
    if ps == [] then None
    else if Matches(ps[0], key) then Some(ps[0])
    else FindPolicy(ps[1..], key)
  }

  /** `get_computer`: the first computer with that hostname, `None` when
      there is none. */
  function FindComputer(cs: seq<Computer>, hostname: string): (r: Option<Computer>)
    ensures r.Some? ==> r.value in cs && r.value.hostname == hostname
    ensures r.None? ==> forall c :: c in cs ==> c.hostname != hostname
  {
    if cs == [] then None
    else if cs[0].hostname == hostname then Some(cs[0])
    else FindComputer(cs[1..], hostname)
  }

  /** Applies a rule change to every policy with id `policyId`; no other
      policy and no name or id changes. */
  function UpdateRules(ps: seq<Policy>, policyId: int, change: RuleChange): (r: seq<Policy>)
    ensures |r| == |ps|
    ensures forall i :: 0 <= i < |ps| ==> r[i].id == ps[i].id && r[i].name == ps[i].name
    ensures forall i :: 0 <= i < |ps| && ps[i].id != policyId ==> r[i] == ps[i]
    ensures forall i :: 0 <= i < |ps| && ps[i].id == policyId ==>
              r[i].appliedRuleIds == Changed(ps[i].appliedRuleIds, change)
  {
    if ps == [] then []
    else
      var p := ps[0];
      var q := if p.id == policyId then p.(appliedRuleIds := Changed(p.appliedRuleIds, change)) else p;
      [q] + UpdateRules(ps[1..], policyId, change)
  }

  /** Assigns policy `policyId` to every computer with id `computerId`; no
      other computer and no other field changes. */
  function MoveComputers(cs: seq<Computer>, computerId: int, policyId: int): (r: seq<Computer>)
    ensures |r| == |cs|
    ensures forall i :: 0 <= i < |cs| ==> r[i].id == cs[i].id && r[i].hostname == cs[i].hostname
    ensures forall i :: 0 <= i < |cs| && cs[i].id != computerId ==> r[i] == cs[i]
    ensures forall i :: 0 <= i < |cs| && cs[i].id == computerId ==> r[i].policyId == Some(policyId)
  {
    if cs == [] then []
    else
      var c := cs[0];
      var d := if c.id == computerId then c.(policyId := Some(policyId)) else c;
      [d] + MoveComputers(cs[1..], computerId, policyId)
  }

  /** The assumed effect of one backend call on the backend's state. */
  function Effect(s: Store, call: Call): (r: Store)
    ensures WellFormed(s) ==> WellFormed(r)
  {
    match call
    case CreatePolicy(name) =>
      Store(s.computers, s.policies + [Policy(s.nextPolicyId, name, Some([]))], s.nextPolicyId + 1)
    case AddIpsRules(policyId, ids) =>
      s.(policies := UpdateRules(s.policies, policyId, Add(ids)))
    case RemoveIpsRules(policyId, ids) =>
      s.(policies := UpdateRules(s.policies, policyId, Remove(ids)))
    case SetComputerPolicyId(computerId, policyId) =>
      s.(computers := MoveComputers(s.computers, computerId, policyId))
  }

  /** The effect of a sequence of backend calls made in order. */
  function EffectAll(s: Store, calls: seq<Call>): (r: Store)
    ensures WellFormed(s) ==> WellFormed(r)
    decreases |calls|
  {
    if calls == [] then s else EffectAll(Effect(s, calls[0]), calls[1..])
  }

  lemma {:induction false} EffectAllAppend(s: Store, a: seq<Call>, b: seq<Call>)
    ensures EffectAll(s, a + b) == EffectAll(EffectAll(s, a), b)
    decreases |a|
  {
    if a == [] {
      assert a + b == b;
    } else {
      assert (a + b)[0] == a[0] && (a + b)[1..] == a[1..] + b;
      EffectAllAppend(Effect(s, a[0]), a[1..], b);
    }
  }

  lemma EffectAllOne(s: Store, c: Call)
    ensures EffectAll(s, [c]) == Effect(s, c)
  {
    assert [c][1..] == [];
  }

  /** Looking a policy up after a rule change finds the same policy as
      before, with its rules changed if it is the one that was changed. */
  lemma {:induction false} FindAfterUpdate(ps: seq<Policy>, key: PolicyKey, policyId: int, change: RuleChange)
    ensures FindPolicy(UpdateRules(ps, policyId, change), key) ==
      match FindPolicy(ps, key)
      case None => None
      case Some(p) =>
        Some(if p.id == policyId then p.(appliedRuleIds := Changed(p.appliedRuleIds, change)) else p)
  {
    if ps != [] {
      FindAfterUpdate(ps[1..], key, policyId, change);
      assert UpdateRules(ps, policyId, change)[1..] == UpdateRules(ps[1..], policyId, change);
    }
  }

  /** A policy appended at the end is found only when no earlier one matches. */
  lemma {:induction false} FindAfterAppend(ps: seq<Policy>, key: PolicyKey, p: Policy)
    ensures FindPolicy(ps + [p], key) ==
      if FindPolicy(ps, key).Some? then FindPolicy(ps, key)
      else if Matches(p, key) then Some(p)
      else None
  {
    if ps == [] {
      assert (ps + [p])[1..] == [];
    } else {
      assert (ps + [p])[0] == ps[0] && (ps + [p])[1..] == ps[1..] + [p];
      FindAfterAppend(ps[1..], key, p);
    }
  }

  /** Looking a computer up after a reassignment finds the same computer,
      now on the new policy if it is the one that was moved. */
  lemma {:induction false} FindComputerAfterMove(cs: seq<Computer>, hostname: string, computerId: int, policyId: int)
    ensures FindComputer(MoveComputers(cs, computerId, policyId), hostname) ==
      match FindComputer(cs, hostname)
      case None => None
      case Some(c) => Some(if c.id == computerId then c.(policyId := Some(policyId)) else c)
  {
    if cs != [] {
      FindComputerAfterMove(cs[1..], hostname, computerId, policyId);
      assert MoveComputers(cs, computerId, policyId)[1..] == MoveComputers(cs[1..], computerId, policyId);
    }
  }
}
