/** The polling loop: its rounds, how it may break off, and what it has achieved at its end. */
module TeardownLoop {
  import opened TeardownModel
  import opened TeardownSteps
  import opened TeardownPolling
  import opened TeardownBudget
  import opened TeardownOrder

  /** Between two rounds, with room for another as long as a stack is pending. */
  ghost predicate Looping(c: Config, g: History, h: History, attempts: nat, names: seq<string>, pending: seq<string>,
                          failed: nat, rounds: nat, b: nat, m: nat)
  {
    && Between(c, g, h, attempts, names, pending, failed, rounds, b) && NamesAtMost(names, m)
    && (pending != [] ==> rounds < Spells(attempts - Resubmissions(g) + m, b))
    && (rounds > 0 ==> rounds <= Spells(attempts - Resubmissions(g) + m, b))
    && (if names == [] then pending == [] && rounds == 0 else pending != [] || rounds > 0)
  }

  lemma LoopBegins(c: Config, g: History, attempts: nat, names: seq<string>, b: nat, m: nat)
    requires BudgetKept(c, g, attempts) && NamesAtMost(names, m)
    ensures Looping(c, g, g, attempts, names, names, 0, 0, b, m)
  {
    hide Spells, Sound;
    BetweenAtStart(c, g, attempts, names, b);
    if names != [] {
      RoomForARound(c, g, g, attempts, names, names, 0, 0, b, m);
    }
  }

  lemma RoundsLeft(c: Config, g: History, h: History, attempts: nat, names: seq<string>, pending: seq<string>,
                   failed: nat, rounds: nat, b: nat, m: nat)
    requires Looping(c, g, h, attempts, names, pending, failed, rounds, b, m) && pending != []
    ensures rounds < Bound(Resubmissions(g), m, b) && BudgetKept(c, h, attempts) && Ledgers(g, h, b)
  {
    hide Spells, Sound;
    RoomForARound(c, g, h, attempts, names, pending, failed, rounds, b, m);
  }

  lemma LoopGoesOn(c: Config, g: History, s: History, h: History, before: nat, attempts: nat, names: seq<string>,
                   pending: seq<string>, pending': seq<string>, deleted: seq<string>,
                   failed: nat, newlyFailed: nat, rounds: nat, b: nat, m: nat)
    requires Looping(c, g, s, before, names, pending, failed, rounds, b, m) && pending != []
    requires Round(c, g, s, h, attempts, pending, |pending|, deleted, newlyFailed, b)
    requires multiset(pending') == multiset(pending) - multiset(deleted)
    ensures var h' := if pending' == [] then h else h + [Wait];
            Looping(c, g, h', attempts, names, pending', failed + newlyFailed, rounds + 1, b, m)
  {
    hide Spells, Sound, Resubmissions, Ledgers, SettledAs, Waits, Polls, Between, Round;
    var h' := if pending' == [] then h else h + [Wait];
    RoundDone(c, g, s, h, before, attempts, names, pending, pending', deleted, failed, newlyFailed, rounds, b);
    RoundSpends(c, g, s, h, before, attempts, names, pending, failed, deleted, newlyFailed, rounds, b);
    SpellsMonotone(before - Resubmissions(g) + m, attempts - Resubmissions(g) + m, b);
    if pending' != [] {
      RoomForARound(c, g, h', attempts, names, pending', failed + newlyFailed, rounds + 1, b, m);
    }
  }

  lemma RoundSpends(c: Config, g: History, s: History, h: History, before: nat, attempts: nat, names: seq<string>,
                    pending: seq<string>, failed: nat, deleted: seq<string>, newlyFailed: nat, rounds: nat, b: nat)
    requires Between(c, g, s, before, names, pending, failed, rounds, b)
    requires Round(c, g, s, h, attempts, pending, |pending|, deleted, newlyFailed, b)
    ensures Resubmissions(g) <= before <= attempts
  {
  }

  lemma TakenAll(c: Config, g: History, s: History, h: History, attempts: nat, pending: seq<string>,
                 deleted: seq<string>, failed: nat, b: nat)
    requires Round(c, g, s, h, attempts, pending, |pending|, deleted, failed, b)
    ensures multiset(deleted) <= multiset(pending) && BudgetKept(c, h, attempts)
  {
    assert pending[..|pending|] == pending;
  }

  /** The loop breaks off in a round. */
  lemma LoopBreaks(c: Config, g: History, s: History, h: History, before: nat, attempts: nat, names: seq<string>,
                   pending: seq<string>, failed: nat, rounds: nat, b: nat, m: nat)
    requires Looping(c, g, s, before, names, pending, failed, rounds, b, m) && pending != []
    requires BudgetKept(c, h, attempts) && before <= attempts && Polling(s, h) && Waits(h) == Waits(s)
    requires DeletesOnly(s, h, NamesOf(pending))
    ensures DeletesOnly(g, h, NamesOf(names)) && LoopCosts(g, Resubmissions(g), h, attempts, names, b, m)
  {
    hide Spells, Sound, Resubmissions, Ledgers, SettledAs, Waits, WithinBudget, OnlyResubmits, Askings;
    PollingOn(g, s, h);
    LoopBudget(c, g, h, attempts);
    SpellsMonotone(before - Resubmissions(g) + m, attempts - Resubmissions(g) + m, b);
  }

  lemma LoopSettled(c: Config, g: History, h: History, attempts: nat, names: seq<string>, failed: nat, rounds: nat, b: nat)
    requires Between(c, g, h, attempts, names, [], failed, rounds, b)
    ensures AllSettled(h) == AllSettled(g) + multiset(names)
  {
    hide AllSettled, Sound, Ledgers, Polling, DeletesOnly;
    assert AllSettled(h) + multiset([]) == AllSettled(h);
  }

  lemma LoopEnds(c: Config, g: History, h: History, attempts: nat, names: seq<string>, failed: nat, rounds: nat, b: nat, m: nat)
    requires Looping(c, g, h, attempts, names, [], failed, rounds, b, m)
    ensures BudgetKept(c, h, attempts) && DeletesOnly(g, h, NamesOf(names)) && GivenUp(h) == GivenUp(g) + failed
    ensures LoopCosts(g, Resubmissions(g), h, attempts, names, b, m)
  {
    hide SettledAs, Resubmissions, Waits, Sound, Ledgers, WithinBudget, OnlyResubmits, Askings, Spells;
    LoopBudget(c, g, h, attempts);
  }

  /** What the loop has achieved when no stack is pending any more. */
  lemma LoopDone(c: Config, g: History, h: History, attempts: nat, names: seq<string>, failed: nat, rounds: nat, b: nat, m: nat)
    requires Looping(c, g, h, attempts, names, [], failed, rounds, b, m)
    ensures BudgetKept(c, h, attempts) && DeletesOnly(g, h, NamesOf(names))
    ensures LoopCosts(g, Resubmissions(g), h, attempts, names, b, m)
    ensures AllSettled(h) == AllSettled(g) + multiset(names)
    ensures failed == 0 <==> NoneSettled(g, h, GaveUp)
    ensures SettledAs(h, Gone) == SettledAs(g, Gone) + multiset(names)
       <==> failed == 0 && NoneSettled(g, h, Rejected)
    ensures failed == 0 ==> AllLeftBefore(h, |h|, names)
  {
    hide SettledAs, Polls, TerminalPolls, Quiet, ResubmissionsOf, Resubmissions, Waits, Sound, NoneSettled, AllLeftBefore,
      Ledgers, LoopCosts, Between, BudgetKept, Askings, Spells;
    LoopSettled(c, g, h, attempts, names, failed, rounds, b);
    LoopEnds(c, g, h, attempts, names, failed, rounds, b, m);
    NoneSettledCount(g, h, GaveUp);
    GoneExactlyWhen(g, h, names);
    if failed == 0 {
      EveryoneLeft(g, h, names);
    }
  }
}
