/**
 Name constraints down a certificate chain (`packages/x509/src/names.ts`): permitted levels
 intersect, excluded subtrees add up, and every comparison is paid from a budget. The theorem is
 that accepting a wildcard accepts every host it can stand for. How names other than DNS names
 compare is a parameter.
 */
module NameConstraints {
  import opened Bytes
  import opened DnsNames

  datatype Form = Address | Mailbox | DirectoryName | Uri | OtherForm

  datatype GeneralName = Dns(value: text) | NotDns(form: Form, content: bytes)

  /** None for a DNS name. */
  type Kind = Option<Form>

  function KindOf(name: GeneralName): Kind {
    match name
    case Dns(_) => None
    case NotDns(form, _) => Some(form)
  }

  /** The comparisons of the other forms: address, mailbox, directory name, URI. */
  type Judge = (GeneralName, GeneralName) -> Verdict

  function WithinSubtree(judge: Judge, name: GeneralName, base: GeneralName, isExclusion: bool): Verdict {
    if KindOf(name) != KindOf(base) then Outside
    else if name.Dns? && base.Dns? then DnsMatchesSubtree(name.value, base.value, isExclusion)
    else if KindOf(name) == Some(OtherForm) then Unclear
    else judge(name, base)
  }

  type Subtrees = seq<GeneralName>

  /** One entry of `permitted` per certificate that stated some. */
  datatype State = State(permitted: seq<Subtrees>, excluded: Subtrees)

  datatype Stated = Stated(permitted: Subtrees, excluded: Subtrees)

  function AddConstraints(state: State, constraints: Option<Stated>): State {
    match constraints
    case None => state
    case Some(stated) =>
      State(if stated.permitted == [] then state.permitted else state.permitted + [stated.permitted],
            state.excluded + stated.excluded)
  }

  const MAXIMUM_NAME_COMPARISONS := 250000

  // ----- what the constraints say

  predicate Excludes(judge: Judge, name: GeneralName, excluded: Subtrees) {
    exists k | 0 <= k < |excluded| :: WithinSubtree(judge, name, excluded[k], true) != Outside
  }

  /** A level says nothing of a form it does not mention. */
  predicate Permits(judge: Judge, name: GeneralName, level: Subtrees) {
    (forall k | 0 <= k < |level| :: KindOf(level[k]) != KindOf(name))
    || (exists k | 0 <= k < |level| :: WithinSubtree(judge, name, level[k], false) == Within)
  }

  predicate Allowed(judge: Judge, name: GeneralName, state: State) {
    && !Excludes(judge, name, state.excluded)
    && forall k | 0 <= k < |state.permitted| :: Permits(judge, name, state.permitted[k])
  }

  // ----- how the code decides it

  /** The subtrees of one form, in order: a group of `Map.groupBy`. */
  function Applicable(level: Subtrees, kind: Kind): Subtrees {
    if level == [] then []
    else (if KindOf(level[0]) == kind then [level[0]] else []) + Applicable(level[1..], kind)
  }

  /** What is left of the budget; None when the name is refused. */
  function PassExcluded(judge: Judge, name: GeneralName, excluded: Subtrees, budget: nat): Option<nat> {
    if excluded == [] then Some(budget)
    else if budget == 0 || WithinSubtree(judge, name, excluded[0], true) != Outside then None
    else PassExcluded(judge, name, excluded[1..], budget - 1)
  }

  function PassLevel(judge: Judge, name: GeneralName, applicable: Subtrees, budget: nat): Option<nat> {
    if applicable == [] || budget == 0 then None
    else if WithinSubtree(judge, name, applicable[0], false) == Within then Some(budget - 1)
    else PassLevel(judge, name, applicable[1..], budget - 1)
  }

  function PassLevels(judge: Judge, name: GeneralName, levels: seq<Subtrees>, budget: nat): Option<nat> {
    if levels == [] then Some(budget)
    else
      var applicable := Applicable(levels[0], KindOf(name));
      if applicable == [] then PassLevels(judge, name, levels[1..], budget)
      else
        match PassLevel(judge, name, applicable, budget)
        case None => None
        case Some(left) => PassLevels(judge, name, levels[1..], left)
  }

  function PassName(judge: Judge, name: GeneralName, state: State, budget: nat): Option<nat> {
    match PassExcluded(judge, name, state.excluded, budget)
    case None => None
    case Some(left) => PassLevels(judge, name, state.permitted, left)
  }

  function PassNames(judge: Judge, names: seq<GeneralName>, state: State, budget: nat): Option<nat> {
    if names == [] then Some(budget)
    else
      match PassName(judge, names[0], state, budget)
      case None => None
      case Some(left) => PassNames(judge, names[1..], state, left)
  }

  predicate Accepts(judge: Judge, names: seq<GeneralName>, state: State) {
    PassNames(judge, names, state, MAXIMUM_NAME_COMPARISONS).Some?
  }

  // ----- the loops

  type Groups = map<Kind, Subtrees>

  ghost predicate IsGrouping(groups: Groups, level: Subtrees) {
    forall kind: Kind ::
      && (kind in groups <==> Applicable(level, kind) != [])
      && (kind in groups ==> groups[kind] == Applicable(level, kind))
  }

  lemma {:induction false} ApplicableGrows(level: Subtrees, base: GeneralName, kind: Kind)
    ensures Applicable(level + [base], kind)
         == Applicable(level, kind) + (if KindOf(base) == kind then [base] else [])
  {
    if level == [] {
      assert [base][1..] == [];
    } else {
      assert (level + [base])[1..] == level[1..] + [base];
      ApplicableGrows(level[1..], base, kind);
      ConcatAssoc(if KindOf(level[0]) == kind then [level[0]] else [], Applicable(level[1..], kind),
                  if KindOf(base) == kind then [base] else []);
    }
  }

  /** `Map.groupBy`. */
  method GroupByKind(level: Subtrees) returns (groups: Groups)
    ensures IsGrouping(groups, level)
  {
    groups := map[];
    for i := 0 to |level|
      invariant IsGrouping(groups, level[..i])
    {
      var kind := KindOf(level[i]);
      assert level[..i + 1] == level[..i] + [level[i]];
      forall k: Kind
        ensures Applicable(level[..i + 1], k)
             == Applicable(level[..i], k) + (if kind == k then [level[i]] else [])
      {
        ApplicableGrows(level[..i], level[i], k);
      }
      groups := groups[kind := (if kind in groups then groups[kind] else []) + [level[i]]];
    }
    assert level[..|level|] == level;
  }

  method IsCovered(judge: Judge, name: GeneralName, applicable: Subtrees, budget: nat) returns (left: Option<nat>)
    ensures left == PassLevel(judge, name, applicable, budget)
  {
    var i, b := 0, budget;
    while i < |applicable|
      invariant 0 <= i <= |applicable| && b >= 0
      invariant PassLevel(judge, name, applicable, budget) == PassLevel(judge, name, applicable[i..], b)
    {
      if b <= 0 {
        return None;
      }
      b := b - 1;
      if WithinSubtree(judge, name, applicable[i], false) == Within {
        return Some(b);
      }
      i := i + 1;
    }
    return None;
  }

  method ViolatesConstraints(judge: Judge, names: seq<GeneralName>, state: State) returns (violates: bool)
    ensures violates <==> !Accepts(judge, names, state)
  {
    hide WithinSubtree, Applicable;
    var budget: nat := MAXIMUM_NAME_COMPARISONS;
    var permittedByKind: seq<Groups> := [];
    for k := 0 to |state.permitted|
      invariant |permittedByKind| == k
      invariant forall j | 0 <= j < k :: IsGrouping(permittedByKind[j], state.permitted[j])
    {
      var groups := GroupByKind(state.permitted[k]);
      permittedByKind := permittedByKind + [groups];
    }
    for n := 0 to |names|
      invariant PassNames(judge, names, state, MAXIMUM_NAME_COMPARISONS) == PassNames(judge, names[n..], state, budget)
    {
      var name := names[n];
      ghost var atName := budget;
      assert names[n..][0] == name && names[n..][1..] == names[n + 1..];
      for e := 0 to |state.excluded|
        invariant PassExcluded(judge, name, state.excluded, atName) == PassExcluded(judge, name, state.excluded[e..], budget)
      {
        if budget <= 0 {
          return true;
        }
        budget := budget - 1;
        if WithinSubtree(judge, name, state.excluded[e], true) != Outside {
          return true;
        }
      }
      ghost var atLevels := budget;
      for k := 0 to |permittedByKind|
        invariant PassLevels(judge, name, state.permitted, atLevels) == PassLevels(judge, name, state.permitted[k..], budget)
      {
        assert state.permitted[k..][1..] == state.permitted[k + 1..];
        assert IsGrouping(permittedByKind[k], state.permitted[k]);
        if KindOf(name) in permittedByKind[k] {
          var left := IsCovered(judge, name, permittedByKind[k][KindOf(name)], budget);
          if left.None? {
            return true;
          }
          budget := left.value;
        }
      }
    }
    return false;
  }

  // ----- the decision is what the constraints say, within the budget

  /** Comparisons until the first subtree that covers the name. */
  function LevelCost(judge: Judge, name: GeneralName, applicable: Subtrees): nat {
    if applicable == [] then 0
    else if WithinSubtree(judge, name, applicable[0], false) == Within then 1
    else 1 + LevelCost(judge, name, applicable[1..])
  }

  function LevelsCost(judge: Judge, name: GeneralName, levels: seq<Subtrees>): nat {
    if levels == [] then 0
    else LevelCost(judge, name, Applicable(levels[0], KindOf(name))) + LevelsCost(judge, name, levels[1..])
  }

  function NameCost(judge: Judge, name: GeneralName, state: State): nat {
    |state.excluded| + LevelsCost(judge, name, state.permitted)
  }

  function Cost(judge: Judge, names: seq<GeneralName>, state: State): nat {
    if names == [] then 0 else NameCost(judge, names[0], state) + Cost(judge, names[1..], state)
  }

  function Paid(isAllowed: bool, budget: nat, cost: nat): Option<nat> {
    if isAllowed && cost <= budget then Some(budget - cost) else None
  }

  lemma ExcludesFirst(judge: Judge, name: GeneralName, excluded: Subtrees)
    requires excluded != []
    ensures Excludes(judge, name, excluded)
       <==> WithinSubtree(judge, name, excluded[0], true) != Outside || Excludes(judge, name, excluded[1..])
  {
    if k :| 0 <= k < |excluded| && WithinSubtree(judge, name, excluded[k], true) != Outside {
      assert k > 0 ==> excluded[1..][k - 1] == excluded[k];
    }
    if j :| 0 <= j < |excluded[1..]| && WithinSubtree(judge, name, excluded[1..][j], true) != Outside {
      assert excluded[j + 1] == excluded[1..][j];
    }
  }

  lemma {:induction false} PassExcludedIs(judge: Judge, name: GeneralName, excluded: Subtrees, budget: nat)
    ensures PassExcluded(judge, name, excluded, budget) == Paid(!Excludes(judge, name, excluded), budget, |excluded|)
  {
    hide WithinSubtree, Excludes;
    if excluded == [] {
      assert !Excludes(judge, name, excluded) by { NothingExcluded(judge, name); }
    } else {
      ExcludesFirst(judge, name, excluded);
      if budget > 0 {
        PassExcludedIs(judge, name, excluded[1..], budget - 1);
      }
    }
  }

  lemma NothingExcluded(judge: Judge, name: GeneralName)
    ensures !Excludes(judge, name, [])
  {
  }

  predicate Covers(judge: Judge, name: GeneralName, applicable: Subtrees) {
    exists k | 0 <= k < |applicable| :: WithinSubtree(judge, name, applicable[k], false) == Within
  }

  lemma CoversFirst(judge: Judge, name: GeneralName, level: Subtrees)
    requires level != []
    ensures Covers(judge, name, level)
       <==> WithinSubtree(judge, name, level[0], false) == Within || Covers(judge, name, level[1..])
  {
    if k :| 0 <= k < |level| && WithinSubtree(judge, name, level[k], false) == Within {
      assert k > 0 ==> level[1..][k - 1] == level[k];
    }
    if j :| 0 <= j < |level[1..]| && WithinSubtree(judge, name, level[1..][j], false) == Within {
      assert level[j + 1] == level[1..][j];
    }
  }

  lemma {:induction false} PassLevelIs(judge: Judge, name: GeneralName, applicable: Subtrees, budget: nat)
    ensures PassLevel(judge, name, applicable, budget)
         == Paid(Covers(judge, name, applicable), budget, LevelCost(judge, name, applicable))
    ensures Covers(judge, name, applicable) ==> LevelCost(judge, name, applicable) > 0
  {
    hide WithinSubtree, Covers;
    if applicable == [] {
      assert !Covers(judge, name, applicable) by { NothingCovers(judge, name); }
    } else {
      CoversFirst(judge, name, applicable);
      PassLevelIs(judge, name, applicable[1..], if budget > 0 then budget - 1 else 0);
    }
  }

  lemma NothingCovers(judge: Judge, name: GeneralName)
    ensures !Covers(judge, name, [])
  {
  }

  /** Only subtrees of the name's own form can cover it. */
  lemma {:induction false} ApplicableCovers(judge: Judge, name: GeneralName, level: Subtrees)
    ensures Covers(judge, name, Applicable(level, KindOf(name))) <==> Covers(judge, name, level)
    ensures Applicable(level, KindOf(name)) == [] <==> forall k | 0 <= k < |level| :: KindOf(level[k]) != KindOf(name)
  {
    hide Covers;
    if level != [] {
      CoversFirst(judge, name, level);
      ApplicableCovers(judge, name, level[1..]);
      var rest := Applicable(level[1..], KindOf(name));
      if KindOf(level[0]) == KindOf(name) {
        assert ([level[0]] + rest)[1..] == rest;
        CoversFirst(judge, name, [level[0]] + rest);
      } else {
        assert [] + rest == rest;
        assert forall k | 1 <= k < |level| :: level[k] == level[1..][k - 1];
      }
    }
  }

  predicate PermitsAll(judge: Judge, name: GeneralName, levels: seq<Subtrees>) {
    forall k | 0 <= k < |levels| :: Permits(judge, name, levels[k])
  }

  lemma PermitsFirst(judge: Judge, name: GeneralName, levels: seq<Subtrees>)
    ensures PermitsAll(judge, name, levels)
       <==> (levels == [] || (Permits(judge, name, levels[0]) && PermitsAll(judge, name, levels[1..])))
  {
    assert forall k | 1 <= k < |levels| :: levels[k] == levels[1..][k - 1];
  }

  lemma PermitsIs(judge: Judge, name: GeneralName, level: Subtrees)
    ensures Permits(judge, name, level)
       <==> Applicable(level, KindOf(name)) == [] || Covers(judge, name, Applicable(level, KindOf(name)))
  {
    ApplicableCovers(judge, name, level);
  }

  lemma {:induction false} PassLevelsIs(judge: Judge, name: GeneralName, levels: seq<Subtrees>, budget: nat)
    ensures PassLevels(judge, name, levels, budget)
         == Paid(PermitsAll(judge, name, levels), budget, LevelsCost(judge, name, levels))
  {
    hide Covers, Permits, PermitsAll, LevelCost, Applicable, PassLevel;
    PermitsFirst(judge, name, levels);
    if levels != [] {
      var applicable := Applicable(levels[0], KindOf(name));
      PermitsIs(judge, name, levels[0]);
      NoCost(judge, name);
      if applicable == [] {
        PassLevelsIs(judge, name, levels[1..], budget);
      } else {
        PassLevelIs(judge, name, applicable, budget);
        var left := PassLevel(judge, name, applicable, budget);
        if left.Some? {
          PassLevelsIs(judge, name, levels[1..], left.value);
        }
      }
    }
  }

  lemma NoCost(judge: Judge, name: GeneralName)
    ensures LevelCost(judge, name, []) == 0
  {
  }

  lemma PassNameIs(judge: Judge, name: GeneralName, state: State, budget: nat)
    ensures PassName(judge, name, state, budget) == Paid(Allowed(judge, name, state), budget, NameCost(judge, name, state))
  {
    hide Excludes, Permits, LevelsCost;
    PassExcludedIs(judge, name, state.excluded, budget);
    if budget >= |state.excluded| {
      PassLevelsIs(judge, name, state.permitted, budget - |state.excluded|);
    }
  }

  predicate AllAllowed(judge: Judge, names: seq<GeneralName>, state: State) {
    forall k | 0 <= k < |names| :: Allowed(judge, names[k], state)
  }

  lemma {:induction false} PassNamesIs(judge: Judge, names: seq<GeneralName>, state: State, budget: nat)
    ensures PassNames(judge, names, state, budget)
         == Paid(AllAllowed(judge, names, state), budget, Cost(judge, names, state))
  {
    hide Allowed, NameCost, PassName;
    if names != [] {
      PassNameIs(judge, names[0], state, budget);
      assert AllAllowed(judge, names, state) <==> Allowed(judge, names[0], state) && AllAllowed(judge, names[1..], state) by {
        assert forall k | 1 <= k < |names| :: names[k] == names[1..][k - 1];
      }
      var left := PassName(judge, names[0], state, budget);
      if left.Some? {
        PassNamesIs(judge, names[1..], state, left.value);
      }
    }
  }

  /** Names pass exactly when the constraints allow each of them and the comparisons stay within the budget. */
  lemma AcceptsExactly(judge: Judge, names: seq<GeneralName>, state: State)
    ensures Accepts(judge, names, state)
       <==> AllAllowed(judge, names, state) && Cost(judge, names, state) <= 250000
  {
    PassNamesIs(judge, names, state, MAXIMUM_NAME_COMPARISONS);
  }

  // ----- down the chain

  lemma AllowedAfterAdding(judge: Judge, name: GeneralName, state: State, stated: Stated)
    ensures Allowed(judge, name, AddConstraints(state, Some(stated)))
       <==> && Allowed(judge, name, state)
            && (stated.permitted == [] || Permits(judge, name, stated.permitted))
            && !Excludes(judge, name, stated.excluded)
  {
    hide WithinSubtree;
    var added := AddConstraints(state, Some(stated));
    assert forall k | 0 <= k < |state.excluded| :: added.excluded[k] == state.excluded[k];
    assert forall k | 0 <= k < |stated.excluded| :: added.excluded[|state.excluded| + k] == stated.excluded[k];
    assert forall k | 0 <= k < |state.permitted| :: added.permitted[k] == state.permitted[k];
    if stated.permitted != [] {
      assert added.permitted[|state.permitted|] == stated.permitted;
    }
  }

  lemma {:induction false} LevelsCostGrows(judge: Judge, name: GeneralName, levels: seq<Subtrees>, more: seq<Subtrees>)
    ensures LevelsCost(judge, name, levels + more) == LevelsCost(judge, name, levels) + LevelsCost(judge, name, more)
  {
    if levels == [] {
      assert levels + more == more;
    } else {
      assert (levels + more)[1..] == levels[1..] + more;
      LevelsCostGrows(judge, name, levels[1..], more);
    }
  }

  lemma {:induction false} CostGrows(judge: Judge, names: seq<GeneralName>, state: State, stated: Stated)
    ensures Cost(judge, names, state) <= Cost(judge, names, AddConstraints(state, Some(stated)))
  {
    if names != [] {
      LevelsCostGrows(judge, names[0], state.permitted, [stated.permitted]);
      CostGrows(judge, names[1..], state, stated);
    }
  }

  /** A certificate lower in the chain can only narrow what is accepted. */
  lemma AddingNeverLoosens(judge: Judge, names: seq<GeneralName>, state: State, constraints: Option<Stated>)
    requires Accepts(judge, names, AddConstraints(state, constraints))
    ensures Accepts(judge, names, state)
  {
    hide Allowed, Cost, Accepts;
    match constraints
    case None =>
    case Some(stated) =>
      AcceptsExactly(judge, names, state);
      AcceptsExactly(judge, names, AddConstraints(state, constraints));
      CostGrows(judge, names, state, stated);
      forall k | 0 <= k < |names|
        ensures Allowed(judge, names[k], state)
      {
        assert Allowed(judge, names[k], AddConstraints(state, constraints));
        AllowedAfterAdding(judge, names[k], state, stated);
      }
  }

  // ----- wildcards

  /** `host` is the name itself, or a host the DNS name can authenticate. */
  predicate StandsFor(name: GeneralName, host: GeneralName) {
    host == name || (name.Dns? && host.Dns? && Matches(name.value, host.value))
  }

  lemma StandsForVerdict(judge: Judge, name: GeneralName, host: GeneralName, base: GeneralName)
    requires StandsFor(name, host)
    ensures KindOf(name) == KindOf(host)
    ensures WithinSubtree(judge, name, base, false) == Within ==> WithinSubtree(judge, host, base, false) == Within
    ensures WithinSubtree(judge, name, base, true) == Outside ==> WithinSubtree(judge, host, base, true) == Outside
  {
    hide Matches, DnsMatchesSubtree;
    if host != name && base.Dns? {
      MatchedVerdict(name.value, host.value, base.value);
    }
  }

  lemma {:induction false} LevelCostShrinks(judge: Judge, name: GeneralName, host: GeneralName, applicable: Subtrees)
    requires StandsFor(name, host)
    ensures LevelCost(judge, host, applicable) <= LevelCost(judge, name, applicable)
  {
    hide StandsFor, WithinSubtree;
    if applicable != [] {
      StandsForVerdict(judge, name, host, applicable[0]);
      LevelCostShrinks(judge, name, host, applicable[1..]);
    }
  }

  lemma {:induction false} LevelsCostShrinks(judge: Judge, name: GeneralName, host: GeneralName, levels: seq<Subtrees>)
    requires StandsFor(name, host)
    ensures LevelsCost(judge, host, levels) <= LevelsCost(judge, name, levels)
  {
    hide StandsFor, WithinSubtree, Applicable, LevelCost;
    if levels != [] {
      StandsForVerdict(judge, name, host, Dns([]));
      LevelCostShrinks(judge, name, host, Applicable(levels[0], KindOf(name)));
      LevelsCostShrinks(judge, name, host, levels[1..]);
    }
  }

  lemma StandsForAllowed(judge: Judge, name: GeneralName, host: GeneralName, state: State)
    requires StandsFor(name, host) && Allowed(judge, name, state)
    ensures Allowed(judge, host, state)
  {
    hide StandsFor, WithinSubtree;
    StandsForVerdict(judge, name, host, Dns([]));
    forall k | 0 <= k < |state.excluded|
      ensures WithinSubtree(judge, host, state.excluded[k], true) == Outside
    {
      StandsForVerdict(judge, name, host, state.excluded[k]);
    }
    forall k | 0 <= k < |state.permitted|
      ensures Permits(judge, host, state.permitted[k])
    {
      var level := state.permitted[k];
      assert Permits(judge, name, level);
      if j :| 0 <= j < |level| && WithinSubtree(judge, name, level[j], false) == Within {
        StandsForVerdict(judge, name, host, level[j]);
      }
    }
  }

  lemma {:induction false} CostShrinks(judge: Judge, names: seq<GeneralName>, hosts: seq<GeneralName>, state: State)
    requires |hosts| == |names| && forall k | 0 <= k < |names| :: StandsFor(names[k], hosts[k])
    ensures Cost(judge, hosts, state) <= Cost(judge, names, state)
  {
    hide StandsFor, LevelsCost;
    if names != [] {
      LevelsCostShrinks(judge, names[0], hosts[0], state.permitted);
      forall k | 0 <= k < |names[1..]|
        ensures StandsFor(names[1..][k], hosts[1..][k])
      {
        assert StandsFor(names[k + 1], hosts[k + 1]);
      }
      CostShrinks(judge, names[1..], hosts[1..], state);
    }
  }

  /**
   Soundness of wildcards: when the constraints accept a certificate's names, they accept, with the
   same budget, any list that puts in place of DNS names, wildcards or not, hosts these match.
   */
  lemma WildcardsAreSound(judge: Judge, names: seq<GeneralName>, hosts: seq<GeneralName>, state: State)
    requires |hosts| == |names| && forall k | 0 <= k < |names| :: StandsFor(names[k], hosts[k])
    requires Accepts(judge, names, state)
    ensures Accepts(judge, hosts, state)
  {
    hide StandsFor, Allowed, Cost, Accepts;
    AcceptsExactly(judge, names, state);
    AcceptsExactly(judge, hosts, state);
    CostShrinks(judge, names, hosts, state);
    forall k | 0 <= k < |hosts|
      ensures Allowed(judge, hosts[k], state)
    {
      assert StandsFor(names[k], hosts[k]) && Allowed(judge, names[k], state);
      StandsForAllowed(judge, names[k], hosts[k], state);
    }
  }
}
