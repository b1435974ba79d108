/** `DeleteCluster`: the retry budget shared by all phases, the polling loop, and the phases of `invoke`. */
module Teardown {
  import opened TeardownModel
  import opened TeardownSteps
  import opened TeardownPolling
  import opened TeardownBudget
  import opened TeardownNames
  import opened TeardownSearch
  import opened TeardownOrder
  import opened TeardownLoop

  class DeleteCluster {
    const config: Config
    var deleteFailedAttempt: nat
    var cloudFormationStacks: seq<string>
    var clusterStacks: seq<string>
    var identityProviderStacks: seq<string>
    var history: History

    constructor (config: Config)
      ensures this.config == config && deleteFailedAttempt == 0 && history == [] && Valid()
      ensures cloudFormationStacks == clusterStacks == identityProviderStacks == []
    {
      this.config := config;
      deleteFailedAttempt := 0;
      cloudFormationStacks, clusterStacks, identityProviderStacks := [], [], [];
      history := [];
    }

    /** The history is one the environment gives rise to, and the attempt counter is the number of resubmissions in
        it, within the budget. */
    ghost predicate Valid()
      reads this
    {
      BudgetKept(config, history, deleteFailedAttempt)
    }

    /** The stacks found. */
    ghost function Found(): Stacks
      reads this
    {
      Stacks(cloudFormationStacks, identityProviderStacks, clusterStacks)
    }

    method Record(e: Event)
      modifies this`history
      ensures history == old(history) + [e]
    {
      history := history + [e];
    }

    method DeleteCloudFormationStack(name: string) returns (outcome: Outcome)
      modifies this`history
      ensures Submission(history, outcome) == Submit(config, old(history), name)
    {
      var reply := config.env.describe(history, name);
      Record(Lookup(name, reply));
      if reply.NoSuchStack? {
        return Proceed;
      }
      if reply.OtherError? {
        return Raised;
      }
      if !config.force && reply.isProtected {
        var yes := config.env.confirm(history, name);
        Record(Prompt(name, yes));
        if !yes {
          return Exit;
        }
      }
      if reply.isProtected {
        var answer := config.env.unprotect(history, name);
        Record(Unprotect(name, answer));
        if !answer.Accepted? {
          return OutcomeOf(answer);
        }
      }
      var answer := config.env.delete(history, name);
      Record(Delete(name, answer));
      outcome := OutcomeOf(answer);
    }

    /** One stack in the polling loop: the `try` block and the exceptions it catches. */
    method PollStack(name: string) returns (settled: bool, gaveUp: bool, outcome: Outcome)
      modifies this`history, this`deleteFailedAttempt
      ensures Polled(history, deleteFailedAttempt, settled, gaveUp, outcome)
           == PollStep(config, old(history), old(deleteFailedAttempt), name)
    {
      settled, gaveUp, outcome := false, false, Proceed;
      var reply := config.env.poll(history, name);
      Record(Poll(name, reply));
      if reply.OtherError? {
        outcome := Raised;
        return;
      }
      if IsGone(reply) {
        settled := true;
        return;
      }
      if HasFailed(reply) && deleteFailedAttempt >= MAX_ATTEMPTS {
        settled, gaveUp := true, true;
        return;
      }
      if IsAnalyticsStack(config, name) {
        var answer := config.env.cleanEnis(history);
        Record(CleanEnis(name, answer));
        outcome := OutcomeOf(answer);
      }
      if outcome.Proceed? && HasFailed(reply) {
        outcome := DeleteCloudFormationStack(name);
        if outcome.Proceed? {
          deleteFailedAttempt := deleteFailedAttempt + 1;
        }
      }
      if outcome.Invalid? {
        settled, outcome := true, Proceed;
      }
    }

    /** One round over the pending stacks. `g` is the history when the polling loop began. */
    method PollRound(pending: seq<string>, ghost g: History, ghost b: nat)
      returns (deleted: seq<string>, failed: nat, outcome: Outcome)
      requires Valid() && Responsive(config.env, b) && Ledgers(g, history, b)
      modifies this`history, this`deleteFailedAttempt
      ensures Valid() && DeletesOnly(old(history), history, NamesOf(pending)) && Explained(history, outcome)
      ensures Polling(old(history), history) && Waits(history) == Waits(old(history))
      ensures old(deleteFailedAttempt) <= deleteFailedAttempt
      ensures outcome.Proceed? ==>
                Round(config, g, old(history), history, deleteFailedAttempt, pending, |pending|, deleted, failed, b)
    {
      deleted, failed, outcome := [], 0, Proceed;
      for i := 0 to |pending|
        invariant outcome.Proceed?
        invariant Round(config, g, old(history), history, deleteFailedAttempt, pending, i, deleted, failed, b)
      {
        RoundStep(config, g, old(history), history, deleteFailedAttempt, pending, i, deleted, failed, b);
        PollStepStops(config, history, deleteFailedAttempt, pending[i]);
        var settled, gaveUp;
        settled, gaveUp, outcome := PollStack(pending[i]);
        if !outcome.Proceed? {
          return;
        }
        if settled {
          deleted := deleted + [pending[i]];
        }
        if gaveUp {
          failed := failed + 1;
        }
      }
    }

    /** `check_stack_deletion_status`. In a list that names no stack more than `m` times, against an environment that
        gives a terminal status after at most `b` quiet polls. */
    method CheckStackDeletionStatus(stackNames: seq<string>, ghost b: nat, ghost m: nat) returns (ok: bool, outcome: Outcome)
      requires Valid() && Responsive(config.env, b) && NamesAtMost(stackNames, m)
      modifies this`history, this`deleteFailedAttempt
      ensures Valid() && DeletesOnly(old(history), history, NamesOf(stackNames)) && Explained(history, outcome)
      ensures LoopCosts(old(history), old(deleteFailedAttempt), history, deleteFailedAttempt, stackNames, b, m)
      ensures outcome.Proceed? ==>
                && AllSettled(history) == AllSettled(old(history)) + multiset(stackNames)
                && (ok <==> NoneSettled(old(history), history, GaveUp))
                && (SettledAs(history, Gone) == SettledAs(old(history), Gone) + multiset(stackNames)
                    <==> ok && NoneSettled(old(history), history, Rejected))
                && (ok ==> AllLeftBefore(history, |history|, stackNames))
    {
      hide Looping, LoopCosts, Spells, Sound, Resubmissions, SettledAs, SettlesAt, NoneSettled, AllLeftBefore, Ledgers, Waits, Polling;
      ghost var g, attempts := history, deleteFailedAttempt;
      var deleteFailed, stacksPending := 0, stackNames;
      ghost var rounds := 0;
      outcome := Proceed;
      LoopBegins(config, g, attempts, stackNames, b, m);
      while |stacksPending| > 0
        invariant outcome.Proceed? && Resubmissions(g) == attempts
        invariant Looping(config, g, history, deleteFailedAttempt, stackNames, stacksPending, deleteFailed, rounds, b, m)
        decreases Bound(attempts, m, b) - rounds
      {
        ghost var s, before := history, deleteFailedAttempt;
        RoundsLeft(config, g, s, before, stackNames, stacksPending, deleteFailed, rounds, b, m);
        var stacksDeleted, failed;
        stacksDeleted, failed, outcome := PollRound(stacksPending, g, b);
        if !outcome.Proceed? {
          ok := false;
          LoopBreaks(config, g, s, history, before, deleteFailedAttempt, stackNames, stacksPending, deleteFailed, rounds, b, m);
          return;
        }
        ghost var pending, h, now := stacksPending, history, deleteFailedAttempt;
        TakenAll(config, g, s, h, now, pending, stacksDeleted, failed, b);
        stacksPending := RemoveAll(stacksPending, stacksDeleted);
        LoopGoesOn(config, g, s, h, before, now, stackNames, pending, stacksPending, stacksDeleted, deleteFailed, failed, rounds, b, m);
        deleteFailed := deleteFailed + failed;
        if |stacksPending| > 0 {
          Record(Wait);
        }
        rounds := rounds + 1;
      }
      ok := deleteFailed == 0;
      assert stacksPending == [];
      LoopDone(config, g, history, deleteFailedAttempt, stackNames, deleteFailed, rounds, b, m);
    }

    /** `find_cloud_formation_stacks`: the pages of resources, and a description of each stack. */
    method FindCloudFormationStacks(pages: seq<seq<string>>) returns (outcome: Outcome)
      requires Valid()
      modifies this`history, this`cloudFormationStacks, this`clusterStacks, this`identityProviderStacks
      ensures Valid() && OnlyNeutral(config, old(history), history) && Explained(history, outcome)
      ensures outcome.Proceed? <==> Listable(config, old(history), Flat(pages))
      ensures outcome.Proceed? ==>
                && history == Listing(config, old(history), Flat(pages))
                && Found() == StacksOf(config, history[|old(history)|..])
                && SortedByName(config, history[|old(history)|..], Found())
      ensures !outcome.Proceed? ==> outcome.Raised? && Found() == old(Found())
    {
      hide Listing, Listable, FoundOf, SettlesAt, OnlyNeutral, BudgetKept, SortedByName;
      ghost var h := history;
      SearchBegins(config, h);
      var stacksToDelete, cluster, identity: seq<string> := [], [], [];
      outcome := Proceed;
      for p := 0 to |pages|
        invariant outcome.Proceed? && OnlyNeutral(config, h, history)
        invariant Searched(config, h, history, Flat(pages[..p]), Stacks(stacksToDelete, identity, cluster))
        invariant Found() == old(Found())
      {
        assert pages[..p + 1][..p] == pages[..p];
        stacksToDelete, identity, cluster, outcome :=
          ReadPage(pages[p], stacksToDelete, identity, cluster, h, Flat(pages[..p]));
        if !outcome.Proceed? {
          FlatPrefix(pages, p + 1);
          NotListable(config, h, Flat(pages[..p + 1]), Flat(pages));
          NeutralKeepsBudget(config, h, history, deleteFailedAttempt);
          return;
        }
      }
      NeutralKeepsBudget(config, h, history, deleteFailedAttempt);
      assert pages[..|pages|] == pages;
      cloudFormationStacks, clusterStacks, identityProviderStacks := stacksToDelete, cluster, identity;
      StacksAreSorted(config, history[|h|..]);
    }

    method ReadPage(resources: seq<string>, stacksToDelete0: seq<string>, identity0: seq<string>, cluster0: seq<string>,
                    ghost h: History, ghost done: seq<string>)
      returns (stacksToDelete: seq<string>, identity: seq<string>, cluster: seq<string>, outcome: Outcome)
      requires OnlyNeutral(config, h, history)
      requires Searched(config, h, history, done, Stacks(stacksToDelete0, identity0, cluster0))
      modifies this`history
      ensures OnlyNeutral(config, h, history) && Explained(history, outcome)
      ensures outcome.Proceed? ==> Searched(config, h, history, done + resources, Stacks(stacksToDelete, identity, cluster))
      ensures !outcome.Proceed? ==> outcome.Raised? && !Listable(config, h, done + resources)
    {
      hide Searched, OnlyNeutral, Listable, IsModuleStack, SettlesAt;
      stacksToDelete, identity, cluster, outcome := stacksToDelete0, identity0, cluster0, Proceed;
      assert done + resources[..0] == done;
      for r := 0 to |resources|
        invariant OnlyNeutral(config, h, history) && outcome.Proceed?
        invariant Searched(config, h, history, done + resources[..r], Stacks(stacksToDelete, identity, cluster))
      {
        var reply := config.env.describe(history, resources[r]);
        ghost var arns := done + resources[..r];
        NeutralSnoc(config, h, history, Listed(resources[r], reply));
        SearchedNext(config, h, history, arns, Stacks(stacksToDelete, identity, cluster), resources[r]);
        assert done + resources[..r + 1] == arns + [resources[r]];
        Record(Listed(resources[r], reply));
        if reply.OtherError? {
          outcome := Raised;
          NotListable(config, h, arns + [resources[r]], done + resources);
          return;
        }
        if reply.NoSuchStack? || reply.stackName == "" || reply.stackName == BootstrapStackName(config) {
          continue;
        }
        if IsClusterStack(config, reply.stackName) {
          cluster := cluster + [reply.stackName];
        } else if IsIdentityProviderStack(config, reply.stackName) {
          identity := identity + [reply.stackName];
        } else {
          stacksToDelete := stacksToDelete + [reply.stackName];
        }
      }
      assert resources[..|resources|] == resources;
    }

    /** A phase: request the deletion of each stack, once, then wait for all of them; abort if one is given up. */
    method DeleteStacks(stacks: seq<string>, ghost b: nat, ghost m: nat) returns (outcome: Outcome)
      requires Valid() && Responsive(config.env, b) && LastPoll(history).None?
      requires 1 <= m && NamesAtMost(stacks, m)
      modifies this`history, this`deleteFailedAttempt
      ensures Valid() && DeletesOnly(old(history), history, NamesOf(stacks)) && Explained(history, outcome)
      ensures var requests := Requests(config, old(history), stacks);
              if requests.outcome.Proceed? then requests.history <= history && OnlyResubmits(requests.history, history)
              else history == requests.history && outcome == requests.outcome
      ensures PhaseCosts(old(history), old(deleteFailedAttempt), history, deleteFailedAttempt, |stacks|, b, m)
      ensures outcome.Proceed? ==>
                && AllLeftBefore(history, |history|, stacks)
                && forall x | x in stacks :: Asked(history, |old(history)|, x)
    {
      hide Sound, Askings, Waits, Resubmissions, SettlesAt, AllLeftBefore, LastPoll, Submit, PhaseCosts, Spells, WithinBudget;
      ghost var h, attempts := history, deleteFailedAttempt;
      RequestsBegin(config, h, h, attempts, stacks);
      assert stacks[..0] == [];
      for i := 0 to |stacks|
        invariant deleteFailedAttempt == attempts && Requested(config, h, history, stacks, i)
        invariant Submission(history, Proceed) == Requests(config, h, stacks[..i])
        invariant AllAsked(h, history, stacks[..i])
      {
        RequestKeeps(config, h, history, stacks, i);
        RequestsSnoc(config, h, stacks, i);
        SubmitStops(config, history, stacks[i]);
        outcome := DeleteCloudFormationStack(stacks[i]);
        if !outcome.Proceed? {
          RequestsStop(config, h, stacks, i + 1);
          NoWait(h, history, attempts, i + 1, |stacks|, b, m);
          return;
        }
      }
      assert stacks[..|stacks|] == stacks;
      ghost var g := history;
      var ok;
      ok, outcome := CheckStackDeletionStatus(stacks, b, m);
      PhaseAdds(h, g, attempts, history, deleteFailedAttempt, stacks, b, m);
      if outcome.Proceed? {
        if !ok {
          return Exit;
        }
        AllAskedLater(h, g, history, stacks);
      }
    }

    /** Anything `invoke` does between the phases: it may stop the run, and touches no stack. */
    method PassStage(what: string) returns (proceeds: bool)
      requires Valid()
      modifies this`history
      ensures Valid() && OnlyNeutral(config, old(history), history)
      ensures history == old(history) + [Stage(what, proceeds)] && proceeds == config.env.stage(old(history), what)
    {
      proceeds := config.env.stage(history, what);
      NeutralSnoc(config, history, history, Stage(what, proceeds));
      Record(Stage(what, proceeds));
    }

    /** `invoke`, as far as stacks are concerned. If the search fails nothing is deleted. Otherwise the stacks the
        environment describes are those found, and they are deleted in order; a run that reaches the end asked for
        each of them to be deleted, and each left. However the run ends, deletions are asked for once for each stack
        found, once for the bootstrap stack, and at most three more times; and if no phase has a name more than `m`
        times, there are at most (3 + 3m)(b + 1) rounds of polling, three of them without a wait after it. */
    method Invoke(pages: seq<seq<string>>, deleteBootstrap: bool, ghost b: nat, ghost m: nat) returns (outcome: Outcome)
      requires Valid() && Responsive(config.env, b)
      requires history == [] && Found() == Stacks([], [], [])
      modifies this
      ensures Valid() && Explained(history, outcome)
      ensures !Succeeds(config, pages) ==>
                outcome.Raised? && Found() == Stacks([], [], []) && forall i | 0 <= i < |history| :: !history[i].Delete?
      ensures Succeeds(config, pages) ==>
                && BeforeSearch(config) + Search(config, pages) <= history
                && Found() == StacksOf(config, Search(config, pages)) && SortedByName(config, Search(config, pages), Found())
                && InOrder(config, history, StacksOf(config, Search(config, pages)), deleteBootstrap)
      ensures outcome.Proceed? ==>
                Succeeds(config, pages) && AllDeleted(config, history, StacksOf(config, Search(config, pages)))
      ensures outcome.Proceed? && deleteBootstrap ==>
                Stage(CONFIRM_BOOTSTRAP, false) in history || EverAsked(history, BootstrapStackName(config))
      ensures WithinBudget(history, deleteFailedAttempt)
      ensures WithinCosts(history, deleteFailedAttempt, Found(), b, m)
    {
      StacksAreSorted(config, Search(config, pages));
      hide Succeeds, Search, StacksOf, SortedByName, Explained, InOrder, Ordered, AllDeleted, PhaseDone, WithinBudget, RunCosts, WithinCosts,
        AtMost, LastPoll, Passed, OnlyNeutral, Sound;
      assert deleteFailedAttempt == 0;
      outcome := FindAndConfirm(pages);
      ghost var f := Found();
      NeutralRun(config, history, Search(config, pages), f, deleteBootstrap, b, m);
      SoundWithinBudget(config, history, deleteFailedAttempt);
      if !outcome.Proceed? {
        return;
      }
      MultiplicityBounds(f, m);
      outcome := DeletePhases(deleteBootstrap, b, Multiplicity(f, m));
      SoundWithinBudget(config, history, deleteFailedAttempt);
      RunIsWithinCosts(history, deleteFailedAttempt, f, b, m);
      TeardownIsOrdered(config, history, Search(config, pages), deleteBootstrap);
      if outcome.Proceed? {
        PhasesDeleteAll(config, history, f);
      }
    }

    /** The part of `invoke` before anything is deleted. */
    method FindAndConfirm(pages: seq<seq<string>>) returns (outcome: Outcome)
      requires Valid() && history == [] && Found() == Stacks([], [], [])
      modifies this`history, this`cloudFormationStacks, this`clusterStacks, this`identityProviderStacks
      ensures Valid() && OnlyNeutral(config, [], history) && Explained(history, outcome)
      ensures !Succeeds(config, pages) ==> outcome.Raised? && Found() == Stacks([], [], [])
      ensures Succeeds(config, pages) ==>
                && BeforeSearch(config) + Search(config, pages) <= history
                && Found() == StacksOf(config, Search(config, pages))
      ensures outcome.Proceed? ==>
                Succeeds(config, pages) && LastPoll(history).None? && Passed(history, |history|, CONFIRM)
    {
      hide Listing, Listable, FoundOf, SettlesAt, Sound, Resubmissions, LastPoll, SameCounts;
      var proceeds := PassStage(FIND_INSTANCES);
      assert history == BeforeSearch(config);
      if !proceeds {
        return Raised;
      }
      ghost var h := history;
      outcome := FindCloudFormationStacks(pages);
      NeutralThen(config, [], h, history);
      if !outcome.Proceed? {
        return;
      }
      ghost var listing := Search(config, pages);
      ListingExtends(config, BeforeSearch(config), Flat(pages));
      assert history == BeforeSearch(config) + listing;
      h := history;
      proceeds := PassStage(CONFIRM);
      NeutralThen(config, [], h, history);
      if !proceeds {
        return Exit;
      }
      assert history[|h|] == Stage(CONFIRM, true);
      StageBegins(h, CONFIRM, true);
    }

    method DeletePhases(deleteBootstrap: bool, ghost b: nat, ghost m: nat) returns (outcome: Outcome)
      requires Valid() && Responsive(config.env, b) && LastPoll(history).None?
      requires 1 <= m && AtMost(Found(), m) && RunCosts(history, deleteFailedAttempt, 0, 0, b, m)
      requires Ordered(config, history, Found(), deleteBootstrap) && Passed(history, |history|, CONFIRM)
      modifies this`history, this`deleteFailedAttempt
      ensures Valid() && old(history) <= history && Explained(history, outcome)
      ensures Ordered(config, history, Found(), deleteBootstrap)
      ensures RunCosts(history, deleteFailedAttempt,
                       |cloudFormationStacks| + |identityProviderStacks| + |clusterStacks| + 1, 3, b, m)
      ensures outcome.Proceed? ==>
                && PhaseDone(history, cloudFormationStacks) && PhaseDone(history, identityProviderStacks)
                && PhaseDone(history, clusterStacks)
      ensures outcome.Proceed? && deleteBootstrap ==>
                Stage(CONFIRM_BOOTSTRAP, false) in history || EverAsked(history, BootstrapStackName(config))
    {
      hide RunCosts, PhaseCosts, LastPoll, Ordered, Due, Requests, OnlyResubmits, PhaseDone, AllLeftBefore, Passed, EverAsked,
        SettlesAt, Sound, Resubmissions, Askings, Waits, SameCounts, NamesAtMost;
      ghost var n := |cloudFormationStacks| + |identityProviderStacks|;
      outcome := OrdinaryAndIdentityPhases(deleteBootstrap, b, m);
      PhasesLeft(history, deleteFailedAttempt, n, n + |clusterStacks| + 1, 2, 3, b, m);
      if !outcome.Proceed? {
        return;
      }
      outcome := ClusterPhase(deleteBootstrap, b, m);
      PhasesLeft(history, deleteFailedAttempt, n + |clusterStacks|, n + |clusterStacks| + 1, 3, 3, b, m);
      if outcome.Proceed? && deleteBootstrap {
        ghost var h := history;
        outcome := BootstrapPhase();
        if Asked(history, |h|, BootstrapStackName(config)) {
          AskedIsEver(history, |h|, BootstrapStackName(config));
        }
        OneMoreAsked(h, history, deleteFailedAttempt, n + |clusterStacks|, 3, b, m);
      }
    }

    /** Deleting the backups, then the cluster stacks. */
    method ClusterPhase(ghost deleteBootstrap: bool, ghost b: nat, ghost m: nat) returns (outcome: Outcome)
      requires Valid() && Responsive(config.env, b) && 1 <= m && NamesAtMost(clusterStacks, m)
      requires RunCosts(history, deleteFailedAttempt, |cloudFormationStacks| + |identityProviderStacks|, 2, b, m)
      requires Ordered(config, history, Found(), deleteBootstrap) && Passed(history, |history|, CONFIRM)
      requires PhaseDone(history, cloudFormationStacks) && PhaseDone(history, identityProviderStacks)
      modifies this`history, this`deleteFailedAttempt
      ensures Valid() && old(history) <= history && Explained(history, outcome)
      ensures Ordered(config, history, Found(), deleteBootstrap) && Passed(history, |history|, CONFIRM)
      ensures RunCosts(history, deleteFailedAttempt,
                       |cloudFormationStacks| + |identityProviderStacks| + |clusterStacks|, 3, b, m)
      ensures PhaseDone(history, cloudFormationStacks) && PhaseDone(history, identityProviderStacks)
      ensures outcome.Proceed? ==> PhaseDone(history, clusterStacks)
    {
      hide RunCosts, PhaseCosts, LastPoll, Ordered, Due, Requests, OnlyResubmits, PhaseDone, AllLeftBefore, Passed, EverAsked,
        SettlesAt, Sound, Resubmissions, Askings, Waits, SameCounts, NamesAtMost;
      ghost var n := |cloudFormationStacks| + |identityProviderStacks|;
      ghost var h := history;
      var proceeds := PassStage(DELETE_BACKUPS);
      NeutralCosts(config, h, history, deleteFailedAttempt, n, 2, b, m);
      PhasesLeft(history, deleteFailedAttempt, n, n + |clusterStacks|, 2, 3, b, m);
      PhaseKeepsOrder(config, h, history, {}, Found(), deleteBootstrap);
      PhaseDoneLater(h, history, cloudFormationStacks);
      PhaseDoneLater(h, history, identityProviderStacks);
      PassedLater(h, history, |h|, |history|, CONFIRM);
      if !proceeds {
        return Raised;
      }
      StageBegins(h, DELETE_BACKUPS, true);
      ClusterIsDue(config, history, Found(), deleteBootstrap);
      h := history;
      ghost var attempts := deleteFailedAttempt;
      outcome := DeleteStacks(clusterStacks, b, m);
      PhaseAdded(h, attempts, history, deleteFailedAttempt, n, |clusterStacks|, 2, b, m);
      PhaseKeepsOrder(config, h, history, NamesOf(clusterStacks), Found(), deleteBootstrap);
      PhaseDoneLater(h, history, cloudFormationStacks);
      PhaseDoneLater(h, history, identityProviderStacks);
      PassedLater(h, history, |h|, |history|, CONFIRM);
      if outcome.Proceed? {
        PhaseIsDone(h, history, clusterStacks);
      }
    }

    method OrdinaryAndIdentityPhases(ghost deleteBootstrap: bool, ghost b: nat, ghost m: nat) returns (outcome: Outcome)
      requires Valid() && Responsive(config.env, b) && LastPoll(history).None?
      requires 1 <= m && AtMost(Found(), m) && RunCosts(history, deleteFailedAttempt, 0, 0, b, m)
      requires Ordered(config, history, Found(), deleteBootstrap) && Passed(history, |history|, CONFIRM)
      modifies this`history, this`deleteFailedAttempt
      ensures Valid() && old(history) <= history && Explained(history, outcome)
      ensures Ordered(config, history, Found(), deleteBootstrap) && Passed(history, |history|, CONFIRM)
      ensures RunCosts(history, deleteFailedAttempt, |cloudFormationStacks| + |identityProviderStacks|, 2, b, m)
      ensures outcome.Proceed? ==> PhaseDone(history, cloudFormationStacks) && PhaseDone(history, identityProviderStacks)
    {
      hide RunCosts, PhaseCosts, LastPoll, Ordered, Due, Requests, OnlyResubmits, PhaseDone, AllLeftBefore, Passed, EverAsked,
        SettlesAt, Sound, Resubmissions, Askings, Waits, SameCounts, NamesAtMost;
      ghost var h, attempts := history, deleteFailedAttempt;
      ghost var n, i := |cloudFormationStacks|, |identityProviderStacks|;
      OrdinaryIsDue(config, history, Found(), deleteBootstrap);
      outcome := DeleteStacks(cloudFormationStacks, b, m);
      PhaseAdded(h, attempts, history, deleteFailedAttempt, 0, n, 0, b, m);
      PhasesLeft(history, deleteFailedAttempt, n, n + i, 1, 2, b, m);
      PhaseKeepsOrder(config, h, history, NamesOf(cloudFormationStacks), Found(), deleteBootstrap);
      PassedLater(h, history, |h|, |history|, CONFIRM);
      if !outcome.Proceed? {
        return;
      }
      PhaseIsDone(h, history, cloudFormationStacks);
      h := history;
      var proceeds := PassStage(UNPROTECT_POOLS);
      NeutralCosts(config, h, history, deleteFailedAttempt, n, 1, b, m);
      PhasesLeft(history, deleteFailedAttempt, n, n + i, 1, 2, b, m);
      PhaseKeepsOrder(config, h, history, {}, Found(), deleteBootstrap);
      PassedLater(h, history, |h|, |history|, CONFIRM);
      if !proceeds {
        return Exit;
      }
      StageBegins(h, UNPROTECT_POOLS, true);
      PhaseDoneLater(h, history, cloudFormationStacks);
      IdentityIsDue(config, history, Found(), deleteBootstrap);
      h, attempts := history, deleteFailedAttempt;
      outcome := DeleteStacks(identityProviderStacks, b, m);
      PhaseAdded(h, attempts, history, deleteFailedAttempt, n, i, 1, b, m);
      PhaseKeepsOrder(config, h, history, NamesOf(identityProviderStacks), Found(), deleteBootstrap);
      PassedLater(h, history, |h|, |history|, CONFIRM);
      if outcome.Proceed? {
        PhaseIsDone(h, history, identityProviderStacks);
        PhaseDoneLater(h, history, cloudFormationStacks);
      }
    }

    /** The bootstrap stack is asked to be deleted, once, if that is confirmed. */
    method BootstrapPhase() returns (outcome: Outcome)
      requires Valid() && Ordered(config, history, Found(), true) && Passed(history, |history|, CONFIRM)
      requires PhaseDone(history, cloudFormationStacks) && PhaseDone(history, identityProviderStacks)
      requires PhaseDone(history, clusterStacks)
      modifies this`history
      ensures Valid() && old(history) <= history && Explained(history, outcome)
      ensures Ordered(config, history, Found(), true)
      ensures PhaseDone(history, cloudFormationStacks) && PhaseDone(history, identityProviderStacks)
      ensures PhaseDone(history, clusterStacks)
      ensures Askings(history) <= Askings(old(history)) + 1 && Waits(history) == Waits(old(history))
      ensures var yes := config.env.stage(old(history), CONFIRM_BOOTSTRAP);
              var h1 := old(history) + [Stage(CONFIRM_BOOTSTRAP, yes)];
              Submission(history, outcome) == if yes then Submit(config, h1, BootstrapStackName(config)) else Submission(h1, Proceed)
      ensures outcome.Proceed? ==>
                Stage(CONFIRM_BOOTSTRAP, false) in history || Asked(history, |old(history)|, BootstrapStackName(config))
    {
      hide LastPoll, Ordered, Due, Submit, Requested, PhaseDone, Sound, Resubmissions, Askings, Waits, Passed, SettlesAt;
      ghost var h, name := history, BootstrapStackName(config);
      var confirmed := PassStage(CONFIRM_BOOTSTRAP);
      PhaseKeepsOrder(config, h, history, {}, Found(), true);
      PhaseDoneLater(h, history, cloudFormationStacks);
      PhaseDoneLater(h, history, identityProviderStacks);
      PhaseDoneLater(h, history, clusterStacks);
      PassedLater(h, history, |h|, |history|, CONFIRM);
      assert history[|h|] == Stage(CONFIRM_BOOTSTRAP, confirmed);
      outcome := Proceed;
      if confirmed {
        ghost var g := history;
        StageBegins(h, CONFIRM_BOOTSTRAP, true);
        RequestsBegin(config, h, g, deleteFailedAttempt, [name]);
        RequestKeeps(config, h, g, [name], 0);
        RequestDone(config, h, Submit(config, g, name), [name]);
        SubmitStops(config, g, name);
        SubmitAsks(config, g, name);
        outcome := DeleteCloudFormationStack(BootstrapStackName(config));
        BootstrapIsDue(config, g, Found());
        OnlySince(h, g, history, name);
        PhaseKeepsOrder(config, g, history, {name}, Found(), true);
        PhaseDoneLater(g, history, cloudFormationStacks);
        PhaseDoneLater(g, history, identityProviderStacks);
        PhaseDoneLater(g, history, clusterStacks);
      }
    }
  }

  /** `for stack_name in stacks_deleted: stacks_pending.remove(stack_name)` */
  method RemoveAll(pending: seq<string>, deleted: seq<string>) returns (rest: seq<string>)
    requires multiset(deleted) <= multiset(pending)
    ensures multiset(rest) == multiset(pending) - multiset(deleted)
  {
    rest := pending;
    for i := 0 to |deleted|
      invariant multiset(rest) == multiset(pending) - multiset(deleted[..i])
    {
      assert deleted == deleted[..i] + [deleted[i]] + deleted[i + 1..];
      assert deleted[..i + 1] == deleted[..i] + [deleted[i]];
      rest := RemoveFirst(rest, deleted[i]);
    }
    assert deleted[..|deleted|] == deleted;
  }

  method RemoveFirst(list: seq<string>, x: string) returns (rest: seq<string>)
    requires x in multiset(list)
    ensures multiset(rest) == multiset(list) - multiset{x}
  {
    var i := 0;
    while list[i] != x
      invariant i < |list| && x !in list[..i]
      decreases |list| - i
    {
      assert list == list[..i + 1] + list[i + 1..];
      i := i + 1;
    }
    assert list == list[..i] + [x] + list[i + 1..];
    rest := list[..i] + list[i + 1..];
  }
}
