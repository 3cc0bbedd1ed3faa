/** Rule catalogs: the rules that profiles require with everything these depend on, pruning to
    them, and the renaming that specializes them for source documents. */
module RuleClosures {
  import opened FiniteSets

  datatype RuleKey = RuleKey(id: string, revision: nat)
  datatype DependencyKind = OnRule | OnEvidence
  datatype Dependency = Dependency(kind: DependencyKind, rule: RuleKey)
  datatype Rule = Rule(key: RuleKey, predicateId: string, needs: seq<Dependency>, sourceOnly: bool)
  datatype Plan = Plan(id: string, body: string)
  datatype Profile = Profile(required: seq<RuleKey>, support: seq<RuleKey>)

  // The closure

  ghost predicate Required(profiles: seq<Profile>, key: RuleKey) {
    exists i :: 0 <= i < |profiles| && key in profiles[i].required
  }

  ghost predicate HasRequired(profiles: seq<Profile>, keys: set<RuleKey>) {
    forall key :: Required(profiles, key) ==> key in keys
  }

  ghost predicate NeedsIn(keys: set<RuleKey>, needs: seq<Dependency>) {
    forall j :: 0 <= j < |needs| && needs[j].kind == OnRule ==> needs[j].rule in keys
  }

  ghost predicate Closed(keys: set<RuleKey>, rules: seq<Rule>) {
    forall i :: 0 <= i < |rules| && rules[i].key in keys ==> NeedsIn(keys, rules[i].needs)
  }

  /** A set that has what the profiles require and is closed under dependencies, and is
      contained in every other such set. */
  ghost predicate Least(keys: set<RuleKey>, rules: seq<Rule>, profiles: seq<Profile>) {
    && HasRequired(profiles, keys) && Closed(keys, rules)
    && forall other :: HasRequired(profiles, other) && Closed(other, rules) ==> keys <= other
  }

  function Mentioned(rules: seq<Rule>): set<RuleKey> {
    if rules == [] then {} else Mentioned(rules[1..]) + Rules(rules[0].needs)
  }

  function Rules(needs: seq<Dependency>): set<RuleKey> {
    set d | d in needs :: d.rule
  }

  lemma {:induction false} MentionedHas(rules: seq<Rule>, i: nat)
    requires i < |rules|
    ensures Rules(rules[i].needs) <= Mentioned(rules)
  {
    if i > 0 {
      MentionedHas(rules[1..], i - 1);
    }
  }

  method Seeds(profiles: seq<Profile>) returns (selected: set<RuleKey>)
    ensures forall key :: key in selected <==> Required(profiles, key)
  {
    selected := {};
    for i := 0 to |profiles|
      invariant forall key :: key in selected <==> exists p :: 0 <= p < i && key in profiles[p].required
    {
      ghost var before := selected;
      for j := 0 to |profiles[i].required|
        invariant forall key :: key in selected <==> key in before || key in profiles[i].required[..j]
      {
        selected := selected + {profiles[i].required[j]};
      }
    }
  }

  /** Adds the missing dependencies of one rule. */
  method Include(selected: set<RuleKey>, needs: seq<Dependency>) returns (more: set<RuleKey>, changed: bool)
    ensures selected <= more <= selected + Rules(needs)
    ensures NeedsIn(more, needs)
    ensures changed <==> more != selected
    ensures forall key :: key in more ==> key in selected || Depends(needs, key)
  {
    more, changed := selected, false;
    for j := 0 to |needs|
      invariant selected <= more <= selected + Rules(needs) && NeedsIn(more, needs[..j])
      invariant changed <==> more != selected
      invariant forall key :: key in more ==> key in selected || Depends(needs, key)
    {
      if needs[j].kind == OnRule && needs[j].rule !in more {
        assert needs[j].rule in Rules(needs) && Depends(needs, needs[j].rule);
        assert needs[j].rule !in selected;
        more, changed := more + {needs[j].rule}, true;
      }
    }
  }

  ghost predicate Depends(needs: seq<Dependency>, key: RuleKey) {
    Dependency(OnRule, key) in needs
  }

  /** One pass over the rules in their order. */
  method Pass(rules: seq<Rule>, selected: set<RuleKey>) returns (more: set<RuleKey>, changed: bool)
    ensures selected <= more <= selected + Mentioned(rules)
    ensures changed <==> more != selected
    ensures !changed ==> Closed(selected, rules)
    ensures forall other :: selected <= other && Closed(other, rules) ==> more <= other
  {
    more, changed := selected, false;
    for i := 0 to |rules|
      invariant selected <= more <= selected + Mentioned(rules)
      invariant changed <==> more != selected
      invariant !changed ==> Closed(selected, rules[..i])
      invariant forall other :: selected <= other && Closed(other, rules) ==> more <= other
    {
      if rules[i].key in more {
        MentionedHas(rules, i);
        ghost var before := more;
        var grew;
        more, grew := Include(more, rules[i].needs);
        changed := changed || grew;
        forall other | selected <= other && Closed(other, rules)
          ensures more <= other
        {
          IncludeWithin(before, more, rules[i].needs, other);
        }
      }
    }
    assert rules[..|rules|] == rules;
  }

  lemma IncludeWithin(selected: set<RuleKey>, more: set<RuleKey>, needs: seq<Dependency>, other: set<RuleKey>)
    requires selected <= other && NeedsIn(other, needs)
    requires forall key :: key in more ==> key in selected || Depends(needs, key)
    ensures more <= other
  {
    forall key | key in more
      ensures key in other
    {
      if key !in selected {
        assert Depends(needs, key);
        var j :| 0 <= j < |needs| && needs[j] == Dependency(OnRule, key);
      }
    }
  }

  /** The passes end with the least closed set, whatever the order of the rules. */
  method RequiredRuleClosure(rules: seq<Rule>, profiles: seq<Profile>) returns (selected: set<RuleKey>)
    ensures Least(selected, rules, profiles)
  {
    selected := Seeds(profiles);
    var changed := true;
    while changed
      invariant HasRequired(profiles, selected)
      invariant forall other :: HasRequired(profiles, other) && Closed(other, rules) ==> selected <= other
      invariant !changed ==> Closed(selected, rules)
      decreases |Mentioned(rules) - selected|, changed
    {
      ghost var before := selected;
      selected, changed := Pass(rules, selected);
      if changed {
        Smaller(Mentioned(rules), before, selected);
      }
    }
  }

  lemma Smaller(all: set<RuleKey>, some: set<RuleKey>, more: set<RuleKey>)
    requires some < more <= some + all
    ensures |all - more| < |all - some|
  {
    var key :| key in more && key !in some;
    assert all - more <= (all - some) - {key};
    SubsetSize(all - more, (all - some) - {key});
  }

  lemma LeastUnique(a: set<RuleKey>, b: set<RuleKey>, rules: seq<Rule>, others: seq<Rule>, profiles: seq<Profile>)
    requires Least(a, rules, profiles) && Least(b, others, profiles)
    requires forall r :: r in rules <==> r in others
    ensures a == b
  {
    SameRules(a, rules, others);
    SameRules(b, others, rules);
  }

  /** Closure does not see the order or the multiplicity of rules. */
  lemma SameRules(keys: set<RuleKey>, rules: seq<Rule>, others: seq<Rule>)
    requires Closed(keys, rules) && forall r :: r in others ==> r in rules
    ensures Closed(keys, others)
  {
    forall i | 0 <= i < |others| && others[i].key in keys
      ensures NeedsIn(keys, others[i].needs)
    {
      assert others[i] in rules;
      var j :| 0 <= j < |rules| && rules[j] == others[i];
    }
  }

  // Chains of dependencies

  ghost predicate Step(rules: seq<Rule>, from: RuleKey, to: RuleKey) {
    exists i :: 0 <= i < |rules| && rules[i].key == from && Depends(rules[i].needs, to)
  }

  ghost predicate Chain(rules: seq<Rule>, profiles: seq<Profile>, path: seq<RuleKey>) {
    && path != [] && Required(profiles, path[0])
    && forall i :: 0 < i < |path| ==> Step(rules, path[i - 1], path[i])
  }

  ghost predicate Reachable(rules: seq<Rule>, profiles: seq<Profile>, key: RuleKey) {
    exists path :: Chain(rules, profiles, path) && path[|path| - 1] == key
  }

  lemma {:induction false} ChainStays(rules: seq<Rule>, profiles: seq<Profile>, keys: set<RuleKey>, path: seq<RuleKey>)
    requires HasRequired(profiles, keys) && Closed(keys, rules) && Chain(rules, profiles, path)
    ensures path[|path| - 1] in keys
    decreases |path|
  {
    if |path| > 1 {
      var before := path[..|path| - 1];
      assert forall i :: 0 <= i < |before| ==> before[i] == path[i];
      ChainStays(rules, profiles, keys, before);
      assert Step(rules, path[|path| - 2], path[|path| - 1]);
      var i :| 0 <= i < |rules| && rules[i].key == path[|path| - 2] && Depends(rules[i].needs, path[|path| - 1]);
      assert NeedsIn(keys, rules[i].needs);
    }
  }

  lemma ReachableStep(rules: seq<Rule>, profiles: seq<Profile>, i: nat, key: RuleKey)
    requires i < |rules| && Reachable(rules, profiles, rules[i].key) && Depends(rules[i].needs, key)
    ensures Reachable(rules, profiles, key)
  {
    var path :| Chain(rules, profiles, path) && path[|path| - 1] == rules[i].key;
    var longer := path + [key];
    assert Step(rules, rules[i].key, key);
    assert forall j :: 0 < j < |path| ==> Step(rules, longer[j - 1], longer[j]) by {
      assert forall j :: 0 < j < |path| ==> Step(rules, path[j - 1], path[j]);
    }
    assert Chain(rules, profiles, longer);
  }

  /** The least closed set holds exactly the keys a chain of dependencies leads to. */
  lemma LeastIsReachable(keys: set<RuleKey>, rules: seq<Rule>, profiles: seq<Profile>, key: RuleKey)
    requires Least(keys, rules, profiles)
    ensures key in keys <==> Reachable(rules, profiles, key)
  {
    if Reachable(rules, profiles, key) {
      var path :| Chain(rules, profiles, path) && path[|path| - 1] == key;
      ChainStays(rules, profiles, keys, path);
    }
    var reached := set k | k in keys && Reachable(rules, profiles, k);
    forall k | Required(profiles, k)
      ensures k in reached
    {
      assert Chain(rules, profiles, [k]);
    }
    forall i | 0 <= i < |rules| && rules[i].key in reached
      ensures NeedsIn(reached, rules[i].needs)
    {
      forall j | 0 <= j < |rules[i].needs| && rules[i].needs[j].kind == OnRule
        ensures rules[i].needs[j].rule in reached
      {
        assert rules[i].needs[j] == Dependency(OnRule, rules[i].needs[j].rule);
        ReachableStep(rules, profiles, i, rules[i].needs[j].rule);
      }
    }
    assert Closed(reached, rules) && HasRequired(profiles, reached);
  }

  // Pruning

  function Selected(rules: seq<Rule>, keys: set<RuleKey>): seq<Rule> {
    if rules == [] then []
    else
      var before := Selected(rules[..|rules| - 1], keys);
      var last := rules[|rules| - 1];
      if last.key in keys then before + [last] else before
  }

  function Backing(plans: seq<Plan>, predicates: set<string>): seq<Plan> {
    if plans == [] then []
    else
      var before := Backing(plans[..|plans| - 1], predicates);
      var last := plans[|plans| - 1];
      if last.id in predicates then before + [last] else before
  }

  function Predicates(rules: seq<Rule>): set<string> {
    set r | r in rules :: r.predicateId
  }

  ghost predicate Named(rules: seq<Rule>, key: RuleKey) {
    exists r :: r in rules && r.key == key
  }

  ghost predicate NeedsNamed(rules: seq<Rule>, needs: seq<Dependency>) {
    forall j :: 0 <= j < |needs| && needs[j].kind == OnRule ==> Named(rules, needs[j].rule)
  }

  /** Every required key and every rule dependency names a rule. */
  ghost predicate Resolvable(rules: seq<Rule>, profiles: seq<Profile>) {
    && (forall key :: Required(profiles, key) ==> Named(rules, key))
    && (forall i :: 0 <= i < |rules| ==> NeedsNamed(rules, rules[i].needs))
  }

  /** The last plan bound to a predicate counts. */
  function LastBody(plans: seq<Plan>, id: string): string {
    if plans == [] then ""
    else if plans[|plans| - 1].id == id then plans[|plans| - 1].body
    else LastBody(plans[..|plans| - 1], id)
  }

  lemma {:induction false} LastBodyIs(plans: seq<Plan>, id: string) returns (k: nat)
    requires HasPlan(plans, id)
    ensures k < |plans| && plans[k] == Plan(id, LastBody(plans, id)) && forall j :: k < j < |plans| ==> plans[j].id != id
  {
    var n := |plans| - 1;
    if plans[n].id == id {
      k := n;
    } else {
      var p :| p in plans && p.id == id;
      assert p in plans[..n];
      k := LastBodyIs(plans[..n], id);
    }
  }

  /** The plan of a rule in a specialized catalog: its replacement, or the one it had. */
  function PlanFor(plans: seq<Plan>, rebuilt: map<string, string>, r: Rule): Plan {
    Plan(Specialized(rebuilt.Keys, r).predicateId,
         if r.key.id in rebuilt then rebuilt[r.key.id] else LastBody(plans, r.predicateId))
  }

  ghost predicate Planned(rules: seq<Rule>, plans: seq<Plan>) {
    forall r :: r in rules ==> HasPlan(plans, r.predicateId)
  }

  ghost predicate HasPlan(plans: seq<Plan>, id: string) {
    exists p :: p in plans && p.id == id
  }

  lemma OneKept(r: Rule, keys: set<RuleKey>, p: Plan, predicates: set<string>)
    ensures Selected([r], keys) == if r.key in keys then [r] else []
    ensures Backing([p], predicates) == if p.id in predicates then [p] else []
  {
    assert [r][..0] == [] && [p][..0] == [];
  }

  /** Each plan of a kept predicate is kept where it is (`OneKept`). */
  lemma {:induction false} BackingExact(plans: seq<Plan>, more: seq<Plan>, predicates: set<string>)
    ensures Backing(plans + more, predicates) == Backing(plans, predicates) + Backing(more, predicates)
  {
    if more == [] {
      assert plans + more == plans;
    } else {
      assert (plans + more)[..|plans + more| - 1] == plans + more[..|more| - 1];
      BackingExact(plans, more[..|more| - 1], predicates);
    }
  }

  /** Each selected rule is kept where it is (`OneKept`). */
  lemma {:induction false} SelectedExact(rules: seq<Rule>, more: seq<Rule>, keys: set<RuleKey>)
    ensures Selected(rules + more, keys) == Selected(rules, keys) + Selected(more, keys)
  {
    if more == [] {
      assert rules + more == rules;
    } else {
      assert (rules + more)[..|rules + more| - 1] == rules + more[..|more| - 1];
      SelectedExact(rules, more[..|more| - 1], keys);
    }
  }

  lemma {:induction false} SelectedHas(rules: seq<Rule>, keys: set<RuleKey>, r: Rule)
    ensures r in Selected(rules, keys) <==> r in rules && r.key in keys
  {
    if rules != [] {
      SelectedHas(rules[..|rules| - 1], keys, r);
      assert rules == rules[..|rules| - 1] + [rules[|rules| - 1]];
    }
  }

  lemma {:induction false} BackingHas(plans: seq<Plan>, predicates: set<string>, p: Plan)
    ensures p in Backing(plans, predicates) <==> p in plans && p.id in predicates
  {
    if plans != [] {
      BackingHas(plans[..|plans| - 1], predicates, p);
      assert plans == plans[..|plans| - 1] + [plans[|plans| - 1]];
    }
  }

  lemma SelectedNames(rules: seq<Rule>, keys: set<RuleKey>, key: RuleKey)
    requires key in keys
    ensures Named(rules, key) <==> Named(Selected(rules, keys), key)
  {
    if Named(rules, key) {
      var r :| r in rules && r.key == key;
      SelectedHas(rules, keys, r);
    }
    if Named(Selected(rules, keys), key) {
      var r :| r in Selected(rules, keys) && r.key == key;
      SelectedHas(rules, keys, r);
    }
  }

  /** Pruning to the closure leaves no reference dangling. */
  lemma PruneResolvable(rules: seq<Rule>, profiles: seq<Profile>, keys: set<RuleKey>)
    requires Least(keys, rules, profiles) && Resolvable(rules, profiles)
    ensures Resolvable(Selected(rules, keys), profiles)
  {
    var kept := Selected(rules, keys);
    forall key | Required(profiles, key)
      ensures Named(kept, key)
    {
      SelectedNames(rules, keys, key);
    }
    forall i | 0 <= i < |kept|
      ensures NeedsNamed(kept, kept[i].needs)
    {
      var r := kept[i];
      SelectedHas(rules, keys, r);
      var at :| 0 <= at < |rules| && rules[at] == r;
      assert NeedsIn(keys, r.needs) && NeedsNamed(rules, rules[at].needs);
      forall j | 0 <= j < |r.needs| && r.needs[j].kind == OnRule
        ensures Named(kept, r.needs[j].rule)
      {
        SelectedNames(rules, keys, r.needs[j].rule);
      }
    }
  }

  lemma PrunePlanned(rules: seq<Rule>, plans: seq<Plan>, keys: set<RuleKey>)
    requires Planned(rules, plans)
    ensures Planned(Selected(rules, keys), Backing(plans, Predicates(Selected(rules, keys))))
  {
    var kept := Selected(rules, keys);
    forall r | r in kept
      ensures HasPlan(Backing(plans, Predicates(kept)), r.predicateId)
    {
      SelectedHas(rules, keys, r);
      assert HasPlan(plans, r.predicateId);
      var p :| p in plans && p.id == r.predicateId;
      BackingHas(plans, Predicates(kept), p);
    }
  }

  /** A pruned catalog has the same closure, so pruning again changes nothing. */
  lemma PruneSettles(rules: seq<Rule>, profiles: seq<Profile>, keys: set<RuleKey>)
    requires Least(keys, rules, profiles)
    ensures Least(keys, Selected(rules, keys), profiles)
    ensures Selected(Selected(rules, keys), keys) == Selected(rules, keys)
  {
    var kept := Selected(rules, keys);
    forall r | r in kept
      ensures r in rules && r.key in keys
    {
      SelectedHas(rules, keys, r);
    }
    SameRules(keys, rules, kept);
    SelectedAll(kept, keys);
    forall other | HasRequired(profiles, other) && Closed(other, kept)
      ensures keys <= other
    {
      ClosedWithin(rules, keys, other);
      assert HasRequired(profiles, other * keys);
    }
  }

  lemma ClosedWithin(rules: seq<Rule>, keys: set<RuleKey>, other: set<RuleKey>)
    requires Closed(keys, rules) && Closed(other, Selected(rules, keys))
    ensures Closed(other * keys, rules)
  {
    var kept := Selected(rules, keys);
    forall i | 0 <= i < |rules| && rules[i].key in other * keys
      ensures NeedsIn(other * keys, rules[i].needs)
    {
      SelectedHas(rules, keys, rules[i]);
      var at :| 0 <= at < |kept| && kept[at] == rules[i];
      assert NeedsIn(other, kept[at].needs) && NeedsIn(keys, rules[i].needs);
    }
  }

  lemma {:induction false} SelectedAll(rules: seq<Rule>, keys: set<RuleKey>)
    requires forall r :: r in rules ==> r.key in keys
    ensures Selected(rules, keys) == rules
  {
    if rules != [] {
      SelectedAll(rules[..|rules| - 1], keys);
    }
  }

  // Specialization

  function Bumped(key: RuleKey): RuleKey {
    key.(revision := key.revision + 1)
  }

  function Specialized(special: set<string>, r: Rule): Rule {
    if r.key.id in special then Rule(Bumped(r.key), r.predicateId + "/source-infoset-v1", r.needs, true) else r
  }

  function Renames(special: set<string>, rules: seq<Rule>): map<RuleKey, RuleKey> {
    if rules == [] then map[]
    else
      var before := Renames(special, rules[..|rules| - 1]);
      var last := rules[|rules| - 1].key;
      if last.id in special then before[last := Bumped(last)] else before
  }

  function Renamed(renames: map<RuleKey, RuleKey>, key: RuleKey): RuleKey {
    if key in renames then renames[key] else key
  }

  function RenamedAll(renames: map<RuleKey, RuleKey>, keys: seq<RuleKey>): seq<RuleKey> {
    seq(|keys|, i requires 0 <= i < |keys| => Renamed(renames, keys[i]))
  }

  function Rewired(renames: map<RuleKey, RuleKey>, r: Rule): Rule {
    r.(needs := seq(|r.needs|, j requires 0 <= j < |r.needs| =>
                      Dependency(r.needs[j].kind, Renamed(renames, r.needs[j].rule))))
  }

  function RewiredAll(renames: map<RuleKey, RuleKey>, rules: seq<Rule>): seq<Rule> {
    seq(|rules|, i requires 0 <= i < |rules| => Rewired(renames, rules[i]))
  }

  function SpecializedAll(special: set<string>, rules: seq<Rule>): seq<Rule> {
    seq(|rules|, i requires 0 <= i < |rules| => Specialized(special, rules[i]))
  }

  function RenamedProfile(renames: map<RuleKey, RuleKey>, p: Profile): Profile {
    Profile(RenamedAll(renames, p.required), RenamedAll(renames, p.support))
  }

  function RenamedProfiles(renames: map<RuleKey, RuleKey>, profiles: seq<Profile>): seq<Profile> {
    seq(|profiles|, i requires 0 <= i < |profiles| => RenamedProfile(renames, profiles[i]))
  }

  lemma {:induction false} RenamesHas(special: set<string>, rules: seq<Rule>, key: RuleKey)
    ensures key in Renames(special, rules) <==> Named(rules, key) && key.id in special
    ensures key in Renames(special, rules) ==> Renames(special, rules)[key] == Bumped(key)
  {
    if rules != [] {
      var before, last := rules[..|rules| - 1], rules[|rules| - 1];
      RenamesHas(special, before, key);
      assert rules == before + [last];
      assert Named(rules, key) <==> Named(before, key) || last.key == key;
    }
  }

  /** A key that names a rule is renamed with it, and different rules stay different. */
  lemma RenameFollows(special: set<string>, rules: seq<Rule>, key: RuleKey, other: RuleKey)
    requires Named(rules, key) && Named(rules, other)
    ensures var renames := Renames(special, rules);
            && Named(RewiredAll(renames, SpecializedAll(special, rules)), Renamed(renames, key))
            && (Renamed(renames, key) == Renamed(renames, other) ==> key == other)
  {
    RenamesHas(special, rules, key);
    RenamesHas(special, rules, other);
    var renames := Renames(special, rules);
    var r :| r in rules && r.key == key;
    var i :| 0 <= i < |rules| && rules[i] == r;
    var done := RewiredAll(renames, SpecializedAll(special, rules));
    assert done[i] == Rewired(renames, Specialized(special, r)) && done[i] in done;
    assert done[i].key == Renamed(renames, key);
  }

  /** A key stays unless it names a rule of a special id; then it has the next revision. */
  ghost predicate Follows(special: set<string>, rules: seq<Rule>, key: RuleKey, later: RuleKey) {
    later == RuleKey(key.id, key.revision + if key.id in special && Named(rules, key) then 1 else 0)
  }

  ghost predicate AllFollow(special: set<string>, rules: seq<Rule>, keys: seq<RuleKey>, later: seq<RuleKey>) {
    |later| == |keys| && forall j :: 0 <= j < |keys| ==> Follows(special, rules, keys[j], later[j])
  }

  lemma RenamedFollows(special: set<string>, rules: seq<Rule>, key: RuleKey)
    ensures Follows(special, rules, key, Renamed(Renames(special, rules), key))
  {
    hide Named;
    RenamesHas(special, rules, key);
  }

  /** Rules of the special ids get the next revision and the name of their source plan, every
      reference to one of them follows, and nothing else changes. */
  lemma NextRevision(special: set<string>, rules: seq<Rule>, i: nat)
    requires i < |rules|
    ensures var before, after := rules[i], RewiredAll(Renames(special, rules), SpecializedAll(special, rules))[i];
            && after.key == RuleKey(before.key.id, before.key.revision + if before.key.id in special then 1 else 0)
            && (before.key.id in special ==> after.predicateId == before.predicateId + "/source-infoset-v1" && after.sourceOnly)
            && (before.key.id !in special ==> after.predicateId == before.predicateId && after.sourceOnly == before.sourceOnly)
            && |after.needs| == |before.needs|
            && forall j :: 0 <= j < |before.needs| ==>
                 && after.needs[j].kind == before.needs[j].kind
                 && Follows(special, rules, before.needs[j].rule, after.needs[j].rule)
  {
    hide Follows;
    hide Renames;
    forall j | 0 <= j < |rules[i].needs|
      ensures Follows(special, rules, rules[i].needs[j].rule, Renamed(Renames(special, rules), rules[i].needs[j].rule))
    {
      RenamedFollows(special, rules, rules[i].needs[j].rule);
    }
  }

  /** Profiles require and support the same rules as before, by the keys these have now. */
  lemma ProfilesFollow(special: set<string>, rules: seq<Rule>, profiles: seq<Profile>)
    ensures var after := RenamedProfiles(Renames(special, rules), profiles);
            |after| == |profiles| && forall i :: 0 <= i < |profiles| ==>
              && AllFollow(special, rules, profiles[i].required, after[i].required)
              && AllFollow(special, rules, profiles[i].support, after[i].support)
  {
    hide Follows;
    hide Renames;
    forall key
      ensures Follows(special, rules, key, Renamed(Renames(special, rules), key))
    {
      RenamedFollows(special, rules, key);
    }
  }

  /** References that named a rule still do after the rules, and all references to them, are
      renamed. */
  lemma SpecializeResolvable(special: set<string>, rules: seq<Rule>, profiles: seq<Profile>)
    requires Resolvable(rules, profiles)
    ensures var renames := Renames(special, rules);
            Resolvable(RewiredAll(renames, SpecializedAll(special, rules)), RenamedProfiles(renames, profiles))
  {
    hide Renames;
    hide Named;
    var renames := Renames(special, rules);
    var done := RewiredAll(renames, SpecializedAll(special, rules));
    forall key | Required(RenamedProfiles(renames, profiles), key)
      ensures Named(done, key)
    {
      var i :| 0 <= i < |profiles| && key in RenamedProfiles(renames, profiles)[i].required;
      var j :| 0 <= j < |profiles[i].required| && key == Renamed(renames, profiles[i].required[j]);
      assert Required(profiles, profiles[i].required[j]);
      RenameFollows(special, rules, profiles[i].required[j], profiles[i].required[j]);
    }
    forall i | 0 <= i < |done|
      ensures NeedsNamed(done, done[i].needs)
    {
      var needs := rules[i].needs;
      assert NeedsNamed(rules, needs);
      forall j | 0 <= j < |done[i].needs| && done[i].needs[j].kind == OnRule
        ensures Named(done, done[i].needs[j].rule)
      {
        assert done[i].needs[j].rule == Renamed(renames, needs[j].rule) && needs[j].kind == OnRule;
        RenameFollows(special, rules, needs[j].rule, needs[j].rule);
      }
    }
  }

  class Definitions {
    var rules: seq<Rule>
    var plans: seq<Plan>
    var profiles: seq<Profile>

    constructor (rules: seq<Rule>, plans: seq<Plan>, profiles: seq<Profile>)
      ensures this.rules == rules && this.plans == plans && this.profiles == profiles
    {
      this.rules, this.plans, this.profiles := rules, plans, profiles;
    }

    method PruneUnrequired() returns (ghost selected: set<RuleKey>)
      modifies this`rules, this`plans
      ensures Least(selected, old(rules), profiles)
      ensures rules == Selected(old(rules), selected) && plans == Backing(old(plans), Predicates(rules))
      ensures old(Resolvable(rules, profiles)) ==> Resolvable(rules, profiles)
      ensures old(Planned(rules, plans)) ==> Planned(rules, plans)
      ensures Least(selected, rules, profiles)
    {
      var closure := RequiredRuleClosure(rules, profiles);
      selected := closure;
      var predicates: set<string> := {};
      var kept: seq<Rule> := [];
      for i := 0 to |rules|
        invariant kept == Selected(rules[..i], closure) && predicates == Predicates(kept)
      {
        assert rules[..i + 1][..i] == rules[..i];
        if rules[i].key in closure {
          kept, predicates := kept + [rules[i]], predicates + {rules[i].predicateId};
        }
      }
      assert rules[..|rules|] == rules && plans[..|plans|] == plans;
      var backing: seq<Plan> := [];
      for i := 0 to |plans|
        invariant backing == Backing(plans[..i], predicates)
      {
        assert plans[..i + 1][..i] == plans[..i];
        if plans[i].id in predicates {
          backing := backing + [plans[i]];
        }
      }
      if Resolvable(rules, profiles) {
        PruneResolvable(rules, profiles, closure);
      }
      if Planned(rules, plans) {
        PrunePlanned(rules, plans, closure);
      }
      PruneSettles(rules, profiles, closure);
      rules, plans := kept, backing;
    }

    /** Prunes, replaces the plans of the special rules and gives these a new revision.  `rebuilt`
        holds the replacement plans by rule id; a plan that is missing or cannot be built stops
        the operation before anything has changed. */
    method SpecializeForSource(rebuilt: map<string, string>) returns (ok: bool, ghost selected: set<RuleKey>)
      modifies this
      ensures Least(selected, old(rules), old(profiles))
      ensures !ok ==> rules == old(rules) && plans == old(plans) && profiles == old(profiles)
      ensures ok ==> var kept := Selected(old(rules), selected);
                     var renames := Renames(rebuilt.Keys, kept);
                     && rules == RewiredAll(renames, SpecializedAll(rebuilt.Keys, kept))
                     && profiles == RenamedProfiles(renames, old(profiles))
                     && |plans| == |kept| && forall i :: 0 <= i < |kept| ==> plans[i] == PlanFor(old(plans), rebuilt, kept[i])
      ensures ok && old(Resolvable(rules, profiles)) ==> Resolvable(rules, profiles)
      ensures ok ==> Planned(rules, plans)
    {
      hide Planned;
      hide Least;
      var closure := RequiredRuleClosure(rules, profiles);
      selected := closure;
      var kept := Select(closure);
      var built, bindings := Bindings(kept, rebuilt);
      if !built {
        return false, selected;
      }
      var renames, special := Rename(kept, rebuilt.Keys);
      if Resolvable(rules, profiles) {
        PruneResolvable(rules, profiles, closure);
        SpecializeResolvable(rebuilt.Keys, kept, profiles);
      }
      PlannedRewired(renames, special, bindings);
      rules, plans := RewiredAll(renames, special), bindings;
      profiles := RenamedProfiles(renames, profiles);
      ok := true;
    }

    method Select(closure: set<RuleKey>) returns (kept: seq<Rule>)
      ensures kept == Selected(rules, closure)
    {
      kept := [];
      for i := 0 to |rules|
        invariant kept == Selected(rules[..i], closure)
      {
        assert rules[..i + 1][..i] == rules[..i];
        if rules[i].key in closure {
          kept := kept + [rules[i]];
        }
      }
      assert rules[..|rules|] == rules;
    }

    /** The plan of each rule: its replacement, or the last one bound to its predicate. */
    method Bindings(kept: seq<Rule>, rebuilt: map<string, string>) returns (ok: bool, bindings: seq<Plan>)
      ensures ok ==> Planned(SpecializedAll(rebuilt.Keys, kept), bindings)
      ensures ok ==> |bindings| == |kept| && forall i :: 0 <= i < |kept| ==> bindings[i] == PlanFor(plans, rebuilt, kept[i])
      ensures (exists r :: r in kept && !HasPlan(plans, r.predicateId)) ==> !ok
    {
      bindings := [];
      for i := 0 to |kept|
        invariant |bindings| == i
        invariant forall k :: 0 <= k < i ==> bindings[k] == PlanFor(plans, rebuilt, kept[k])
        invariant forall k :: 0 <= k < i ==> HasPlan(plans, kept[k].predicateId)
      {
        var found, plan := PlanOf(kept[i].predicateId);
        var buildable: bool := *;
        if !found || (kept[i].key.id in rebuilt && !buildable) {
          return false, [];
        }
        var body := if kept[i].key.id in rebuilt then rebuilt[kept[i].key.id] else plan.body;
        bindings := bindings + [Plan(Specialized(rebuilt.Keys, kept[i]).predicateId, body)];
      }
      ok := true;
      forall r | r in SpecializedAll(rebuilt.Keys, kept)
        ensures HasPlan(bindings, r.predicateId)
      {
        var i :| 0 <= i < |kept| && r == Specialized(rebuilt.Keys, kept[i]);
        assert bindings[i] in bindings;
      }
    }

    method PlanOf(id: string) returns (found: bool, plan: Plan)
      ensures found <==> HasPlan(plans, id)
      ensures found ==> plan in plans && plan == Plan(id, LastBody(plans, id))
    {
      found, plan := false, Plan(id, "");
      for i := 0 to |plans|
        invariant found <==> exists k :: 0 <= k < i && plans[k].id == id
        invariant plan == Plan(id, LastBody(plans[..i], id)) && (found ==> plan in plans)
      {
        assert plans[..i + 1][..i] == plans[..i];
        if plans[i].id == id {
          found, plan := true, plans[i];
        }
      }
      assert plans[..|plans|] == plans;
    }

    method Rename(kept: seq<Rule>, ids: set<string>) returns (renames: map<RuleKey, RuleKey>, special: seq<Rule>)
      ensures renames == Renames(ids, kept) && special == SpecializedAll(ids, kept)
    {
      renames, special := map[], [];
      for i := 0 to |kept|
        invariant renames == Renames(ids, kept[..i]) && special == SpecializedAll(ids, kept[..i])
      {
        assert kept[..i + 1][..i] == kept[..i];
        if kept[i].key.id in ids {
          renames := renames[kept[i].key := Bumped(kept[i].key)];
        }
        special := special + [Specialized(ids, kept[i])];
      }
      assert kept[..|kept|] == kept;
    }
  }

  lemma PlannedRewired(renames: map<RuleKey, RuleKey>, rules: seq<Rule>, plans: seq<Plan>)
    requires Planned(rules, plans)
    ensures Planned(RewiredAll(renames, rules), plans)
  {
    forall r | r in RewiredAll(renames, rules)
      ensures HasPlan(plans, r.predicateId)
    {
      var i :| 0 <= i < |rules| && r == Rewired(renames, rules[i]);
      assert rules[i] in rules;
    }
  }
}
