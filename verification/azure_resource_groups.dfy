/** delete_azure_resources: pick the resource groups to delete (prefix,
    locks, dry-run gate), and delete one group's security groups, recovery
    vaults and then the group itself. */
module AzureResourceGroups {
  import opened Wrappers
  import opened Effects
  import opened Seqs

  /** A listed resource group with the names of the management locks the lock
      client lists for it. */
  datatype ResourceGroup = ResourceGroup(name: string, locks: seq<string>)

  /** What `check_resource_group_lock` returns, and what it emits. */
  datatype LockCheck = LockCheck(locks: seq<string>, effects: seq<Effect>)

  /** The selected groups, in listing order, and the effects of selecting them. */
  datatype Selection = Selection(selected: seq<ResourceGroup>, effects: seq<Effect>)

  /** The contents of a group being deleted: its network security groups and
      recovery vaults, as the network and recovery clients list them. */
  datatype GroupContents = GroupContents(name: string, securityGroups: seq<string>, vaults: seq<string>)

  /** `prefix is not None and not name.startswith(prefix)` is the skip test. */
  predicate PassesPrefix(prefix: Option<string>, name: string)
  {
    prefix.None? || prefix.value <= name
  }

  /** `check_resource_group_lock(lock_client, resource_group, log)`: lists the
      group's locks and reports whether there are any. */
  function CheckResourceGroupLock(group: ResourceGroup, dry: bool): (r: LockCheck)
    ensures r.locks == group.locks
    ensures Targets(r.effects, ListLocks) == [group.name]
    ensures Logged(r.effects, HasLocks) == (if r.locks != [] then [group.name] else [])
    ensures Logged(r.effects, NoLocks) == (if r.locks == [] then [group.name] else [])
    ensures LogsIn(r.effects, dry)
  {
    var effects := [Call(Request(ListLocks, group.name)), Log(dry, if group.locks != [] then HasLocks else NoLocks, group.name)];
    Project2(effects[0], effects[1], ListLocks, HasLocks);
    Project2(effects[0], effects[1], ListLocks, NoLocks);
    LockCheck(group.locks, effects)
  }

  /** The selection step for one group. */
  function SelectionStep(group: ResourceGroup, prefix: Option<string>, live: bool): Selection
  {
    if !PassesPrefix(prefix, group.name) then Selection([], [Log(!live, Skipped, group.name)])
    else
      var check := CheckResourceGroupLock(group, !live);
      if check.locks != [] then Selection([], check.effects + [Log(!live, SkippedLocked, group.name)])
      else if !live then Selection([], check.effects + [Log(!live, SkippedDryRun, group.name)])
      else Selection([group], check.effects)
  }

  /** The loop of `delete_resource_groups` that builds `filtered_resource_groups`. */
  function SelectResourceGroups(groups: seq<ResourceGroup>, prefix: Option<string>, live: bool): (r: Selection)
    ensures !live ==> r.selected == []
    ensures IsSubsequence(r.selected, groups)
    ensures forall g :: g in r.selected <==>
      g in groups && PassesPrefix(prefix, g.name) && g.locks == [] && live
  {
    if groups == [] then Selection([], [])
    else
      var step := SelectionStep(groups[0], prefix, live);
      var rest := SelectResourceGroups(groups[1..], prefix, live);
      assert forall g :: g in groups <==> g == groups[0] || g in groups[1..];
      if step.selected != [] then
        assert ([groups[0]] + rest.selected)[1..] == rest.selected;
        Selection([groups[0]] + rest.selected, step.effects + rest.effects)
      else Selection(rest.selected, step.effects + rest.effects)
  }

  /** Names of the groups that pass the prefix test, in listing order. */
  function PrefixPassing(groups: seq<ResourceGroup>, prefix: Option<string>): seq<string>
  {
    if groups == [] then []
    else (if PassesPrefix(prefix, groups[0].name) then [groups[0].name] else []) + PrefixPassing(groups[1..], prefix)
  }

  /** What the projections see of one selection step. */
  lemma SelectionStepFacts(group: ResourceGroup, prefix: Option<string>, live: bool)
    ensures var step := SelectionStep(group, prefix, live).effects;
      && Targets(step, ListLocks) == (if PassesPrefix(prefix, group.name) then [group.name] else [])
      && LogsIn(step, !live)
  {
    var step := SelectionStep(group, prefix, live).effects;
    if !PassesPrefix(prefix, group.name) {
      var x := Log(!live, Skipped, group.name);
      assert step == [x];
      Project1(x, ListLocks, Skipped);
    } else {
      var check := CheckResourceGroupLock(group, !live);
      if check.locks != [] || !live {
        var x := Log(!live, if check.locks != [] then SkippedLocked else SkippedDryRun, group.name);
        assert step == check.effects + [x];
        Project1(x, ListLocks, Skipped);
        TargetsAppend(check.effects, [x], ListLocks);
        assert forall e :: e in check.effects + [x] ==> e in check.effects || e == x;
      } else {
        assert step == check.effects;
      }
    }
  }

  /** The lock client is asked exactly about the groups that pass the prefix
      test, once each, in listing order; every line uses the logger of the mode. */
  lemma {:induction false} LockLookupsFollowPrefix(groups: seq<ResourceGroup>, prefix: Option<string>, live: bool)
    ensures var r := SelectResourceGroups(groups, prefix, live);
      && Targets(r.effects, ListLocks) == PrefixPassing(groups, prefix)
      && LogsIn(r.effects, !live)
  {
    if groups != [] {
      LockLookupsFollowPrefix(groups[1..], prefix, live);
      var step := SelectionStep(groups[0], prefix, live);
      var rest := SelectResourceGroups(groups[1..], prefix, live);
      SelectionStepFacts(groups[0], prefix, live);
      TargetsAppend(step.effects, rest.effects, ListLocks);
    }
  }

  /** Names of the groups the selection keeps, as a plain filter. */
  function Deletable(groups: seq<ResourceGroup>, prefix: Option<string>, live: bool): seq<ResourceGroup>
  {
    if groups == [] then []
    else
      (if live && PassesPrefix(prefix, groups[0].name) && groups[0].locks == [] then [groups[0]] else [])
      + Deletable(groups[1..], prefix, live)
  }

  /** The selection is exactly the listing filtered by the three tests, in
      order, each occurrence kept at most once. */
  lemma {:induction false} SelectionIsFilter(groups: seq<ResourceGroup>, prefix: Option<string>, live: bool)
    ensures SelectResourceGroups(groups, prefix, live).selected == Deletable(groups, prefix, live)
  {
    if groups != [] {
      var g := groups[0];
      SelectionIsFilter(groups[1..], prefix, live);
      SelectionStepSelects(g, prefix, live);
      var rest := SelectResourceGroups(groups[1..], prefix, live);
      var step := SelectionStep(g, prefix, live);
      if step.selected != [] {
        assert SelectResourceGroups(groups, prefix, live).selected == [g] + rest.selected;
      } else {
        assert SelectResourceGroups(groups, prefix, live).selected == rest.selected;
      }
    }
  }

  /** One step selects its group exactly when the three tests pass. */
  lemma SelectionStepSelects(group: ResourceGroup, prefix: Option<string>, live: bool)
    ensures SelectionStep(group, prefix, live).selected
         == if live && PassesPrefix(prefix, group.name) && group.locks == [] then [group] else []
  {
  }

  // ---------------------------------------------------------------------------
  // delete_resource_group

  /** One security group: announce, delete, then report the outcome. */
  function SecurityGroupStep(n: string, failing: set<Request>): seq<Effect>
  {
    [Print(Deleting, n), Call(Request(DeleteSecurityGroup, n)),
     Print(if Request(DeleteSecurityGroup, n) in failing then Failed else Succeeded, n)]
  }

  function SecurityGroupEffects(names: seq<string>, failing: set<Request>): seq<Effect>
  {
    if names == [] then [] else SecurityGroupStep(names[0], failing) + SecurityGroupEffects(names[1..], failing)
  }

  /** One recovery vault: log, delete, then log the outcome. */
  function VaultStep(n: string, dry: bool, failing: set<Request>): seq<Effect>
  {
    [Log(dry, Deleting, n), Call(Request(DeleteVault, n)),
     Log(dry, if Request(DeleteVault, n) in failing then Failed else Succeeded, n)]
  }

  function VaultEffects(names: seq<string>, dry: bool, failing: set<Request>): seq<Effect>
  {
    if names == [] then [] else VaultStep(names[0], dry, failing) + VaultEffects(names[1..], dry, failing)
  }

  /** `delete_resource_group(...)`: every delete is caught and logged. Each
      listed security group and vault is deleted once, in order, and the
      resource group once, whatever fails before it; every security-group
      delete comes before every vault delete, which comes before the
      resource-group delete. */
  function DeleteResourceGroupEffects(group: GroupContents, dry: bool, failing: set<Request>): (r: seq<Effect>)
    ensures Targets(r, DeleteSecurityGroup) == group.securityGroups
    ensures Targets(r, DeleteVault) == group.vaults
    ensures Targets(r, DeleteResourceGroup) == [group.name]
    ensures InStages(r, Stage)
  {
    var nsgs := SecurityGroupEffects(group.securityGroups, failing);
    var vaults := VaultEffects(group.vaults, dry, failing);
    var last := GroupDeleteEffects(group.name, dry, failing);
    SecurityGroupFacts(group.securityGroups, failing);
    VaultFacts(group.vaults, dry, failing);
    GroupDeleteFacts(group.name, dry, failing);
    TargetsOfThree(nsgs, vaults, last, DeleteSecurityGroup);
    TargetsOfThree(nsgs, vaults, last, DeleteVault);
    TargetsOfThree(nsgs, vaults, last, DeleteResourceGroup);
    SingleStageOrdered(nsgs, 0);
    InStagesAppend(nsgs, vaults, Stage, 1);
    assert forall e: Effect :: e in nsgs + vaults && e.Call? ==> Stage(e.req.api) <= 2;
    InStagesAppend(nsgs + vaults, last, Stage, 2);
    nsgs + vaults + last
  }

  /** The order of the deletions inside one group. */
  function Stage(api: Api): nat
  {
    match api
    case DeleteSecurityGroup => 0
    case DeleteVault => 1
    case DeleteResourceGroup => 2
    case _ => 3
  }

  lemma SecurityGroupStepFacts(n: string, failing: set<Request>)
    ensures var s := SecurityGroupStep(n, failing);
      && Targets(s, DeleteSecurityGroup) == [n]
      && Targets(s, DeleteVault) == []
      && Targets(s, DeleteResourceGroup) == []
      && AllInStage(s, Stage, 0)
  {
    var s := SecurityGroupStep(n, failing);
    Targets3(s[0], s[1], s[2], DeleteSecurityGroup);
    Targets3(s[0], s[1], s[2], DeleteVault);
    Targets3(s[0], s[1], s[2], DeleteResourceGroup);
  }

  lemma {:induction false} SecurityGroupFacts(names: seq<string>, failing: set<Request>)
    ensures var r := SecurityGroupEffects(names, failing);
      && Targets(r, DeleteSecurityGroup) == names
      && Targets(r, DeleteVault) == []
      && Targets(r, DeleteResourceGroup) == []
      && AllInStage(r, Stage, 0)
  {
    if names != [] {
      SecurityGroupFacts(names[1..], failing);
      var step := SecurityGroupStep(names[0], failing);
      var rest := SecurityGroupEffects(names[1..], failing);
      assert SecurityGroupEffects(names, failing) == step + rest;
      assert names[1..] == Targets(rest, DeleteSecurityGroup);
      SecurityGroupStepFacts(names[0], failing);
      TargetsAppend(step, rest, DeleteSecurityGroup);
      TargetsAppend(step, rest, DeleteVault);
      TargetsAppend(step, rest, DeleteResourceGroup);
      AllInStageAppend(step, rest, Stage, 0);
    }
  }

  lemma VaultStepFacts(n: string, dry: bool, failing: set<Request>)
    ensures var s := VaultStep(n, dry, failing);
      && Targets(s, DeleteSecurityGroup) == []
      && Targets(s, DeleteVault) == [n]
      && Targets(s, DeleteResourceGroup) == []
      && AllInStage(s, Stage, 1)
      && Logged(s, Failed) == (if Request(DeleteVault, n) in failing then [n] else [])
  {
    var s := VaultStep(n, dry, failing);
    Targets3(s[0], s[1], s[2], DeleteSecurityGroup);
    Targets3(s[0], s[1], s[2], DeleteVault);
    Targets3(s[0], s[1], s[2], DeleteResourceGroup);
    Logged3(s[0], s[1], s[2], Failed);
  }

  lemma {:induction false} VaultFacts(names: seq<string>, dry: bool, failing: set<Request>)
    ensures var r := VaultEffects(names, dry, failing);
      && Targets(r, DeleteSecurityGroup) == []
      && Targets(r, DeleteVault) == names
      && Targets(r, DeleteResourceGroup) == []
      && AllInStage(r, Stage, 1)
  {
    if names != [] {
      VaultFacts(names[1..], dry, failing);
      var step := VaultStep(names[0], dry, failing);
      var rest := VaultEffects(names[1..], dry, failing);
      assert VaultEffects(names, dry, failing) == step + rest;
      assert names[1..] == Targets(rest, DeleteVault);
      VaultStepFacts(names[0], dry, failing);
      TargetsAppend(step, rest, DeleteSecurityGroup);
      TargetsAppend(step, rest, DeleteVault);
      TargetsAppend(step, rest, DeleteResourceGroup);
      AllInStageAppend(step, rest, Stage, 1);
    }
  }

  /** Exactly the failing vault deletes are logged as failed, in order. */
  lemma {:induction false} VaultFailuresLogged(names: seq<string>, dry: bool, failing: set<Request>)
    ensures Logged(VaultEffects(names, dry, failing), Failed) == FailingOf(DeleteVault, names, failing)
  {
    if names != [] {
      VaultFailuresLogged(names[1..], dry, failing);
      var step := VaultStep(names[0], dry, failing);
      var rest := VaultEffects(names[1..], dry, failing);
      VaultStepFacts(names[0], dry, failing);
      LoggedAppend(step, rest, Failed);
    }
  }

  /** The resource-group step that ends `delete_resource_group`. */
  function GroupDeleteEffects(name: string, dry: bool, failing: set<Request>): (r: seq<Effect>)
    ensures |r| == 3
  {
    [Log(dry, Deleting, name), Call(Request(DeleteResourceGroup, name)),
     Log(dry, if Request(DeleteResourceGroup, name) in failing then Failed else Succeeded, name)]
  }

  lemma TargetsOfThree(a: seq<Effect>, b: seq<Effect>, c: seq<Effect>, api: Api)
    ensures Targets((a + b) + c, api) == Targets(a, api) + Targets(b, api) + Targets(c, api)
  {
    TargetsAppend(a, b, api);
    TargetsAppend(a + b, c, api);
  }

  lemma GroupDeleteFacts(name: string, dry: bool, failing: set<Request>)
    ensures var r := GroupDeleteEffects(name, dry, failing);
      && Targets(r, DeleteSecurityGroup) == []
      && Targets(r, DeleteVault) == []
      && Targets(r, DeleteResourceGroup) == [name]
      && AllInStage(r, Stage, 2)
  {
    var r := GroupDeleteEffects(name, dry, failing);
    Targets3(r[0], r[1], r[2], DeleteSecurityGroup);
    Targets3(r[0], r[1], r[2], DeleteVault);
    Targets3(r[0], r[1], r[2], DeleteResourceGroup);
    forall e | e in r && e.Call?
      ensures Stage(e.req.api) == 2
    {
      assert e == r[1];
    }
  }

  lemma SingleStageOrdered(effects: seq<Effect>, k: nat)
    requires AllInStage(effects, Stage, k)
    ensures InStages(effects, Stage)
  {
    forall i, j | 0 <= i < j < |effects| && effects[i].Call? && effects[j].Call?
      ensures Stage(effects[i].req.api) <= Stage(effects[j].req.api)
    {
      assert effects[i] in effects && effects[j] in effects;
    }
  }

  /** A failing vault delete is logged as failed, and the resource-group delete
      is still attempted after it. */
  lemma VaultFailureContained(group: GroupContents, dry: bool, failing: set<Request>)
    ensures var r := DeleteResourceGroupEffects(group, dry, failing);
      var vaults := VaultEffects(group.vaults, dry, failing);
      && Logged(vaults, Failed) == FailingOf(DeleteVault, group.vaults, failing)
      && r[|r| - 2] == Call(Request(DeleteResourceGroup, group.name))
  {
    VaultFailuresLogged(group.vaults, dry, failing);
  }
}
