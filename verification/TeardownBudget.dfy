/** The shared retry budget over whole histories: which deletions are asked for, and when. */
module TeardownBudget {
  import opened TeardownModel
  import opened TeardownSteps
  import opened TeardownPolling

  // ---------------------------------------------------------------- requests after a poll

  /** The last poll was of this stack, saw that its deletion had failed, and the budget is not spent. */
  predicate MayResubmit(h: History, name: string) {
    var last := LastPoll(h);
    last.Some? && IsFailure(last.value) && last.value.name == name && Resubmissions(h) < MAX_ATTEMPTS
  }

  predicate IsLookupOrDelete(e: Event) {
    e.Lookup? || e.Delete?
  }

  /** The attempt counter is the number of deletions asked for after a poll of their phase, and at most 3; and each
      request made after a poll is for the stack that was just seen to have failed, within the budget. */
  ghost predicate WithinBudget(h: History, attempts: nat) {
    && attempts == Resubmissions(h) <= MAX_ATTEMPTS
    && (forall i | 0 <= i < |h| && IsLookupOrDelete(h[i]) && LastPoll(h[..i]).Some? :: MayResubmit(h[..i], h[i].name))
    && (forall i | 0 <= i < |h| && LastPoll(h[..i]).Some? :: Resubmits(h, i) <==> IsAsking(h[i]))
  }

  lemma JustFailedIsLastPoll(h: History, name: string)
    requires JustFailed(h, name)
    ensures LastPoll(h).Some? && IsFailure(LastPoll(h).value) && LastPoll(h).value.name == name
  {
  }

  predicate IsOfRequest(e: Event) {
    e.Lookup? || e.Prompt? || e.Unprotect? || e.Delete?
  }

  /** Every event of a request made after a poll finds the budget as its beginning did. */
  lemma {:induction false} RequestWithinBudget(c: Config, h: History, i: nat)
    requires Sound(c, h) && i < |h| && IsOfRequest(h[i]) && LastPoll(h[..i]).Some?
    ensures MayResubmit(h[..i], h[i].name)
    decreases i
  {
    assert Justified(c, h, i);
    if h[i].Lookup? {
      JustFailedIsLastPoll(h[..i], h[i].name);
    } else {
      assert h[..i] == h[..i - 1] + [h[i - 1]];
      NeutralCounts(h[..i - 1], h[i - 1]);
      RequestWithinBudget(c, h, i - 1);
    }
  }

  /** In a sound history every request keeps within the budget. */
  lemma SoundWithinBudget(c: Config, h: History, attempts: nat)
    requires BudgetKept(c, h, attempts)
    ensures WithinBudget(h, attempts)
  {
    hide Sound, LastPoll, Resubmissions;
    forall i | 0 <= i < |h| && IsOfRequest(h[i]) && LastPoll(h[..i]).Some? ensures MayResubmit(h[..i], h[i].name) {
      RequestWithinBudget(c, h, i);
    }
  }

  /** The budget spent never shrinks; nor, then, does the attempt counter. */
  lemma {:induction false} BudgetNeverShrinks(g: History, h: History)
    requires g <= h
    ensures Resubmissions(g) <= Resubmissions(h)
    decreases |h|
  {
    if |g| < |h| {
      BudgetNeverShrinks(g, h[..|h| - 1]);
    } else {
      assert g == h;
    }
  }

  // ---------------------------------------------------------------- the polling loop asks within the budget only

  lemma {:induction false} PolledSince(g: History, h: History, i: nat)
    requires Polling(g, h) && |g| < i <= |h|
    ensures LastPoll(h[..i]).Some?
    decreases i
  {
    assert h[..i][..i - 1] == h[..i - 1];
    if i > |g| + 1 {
      PolledSince(g, h, i - 1);
    }
  }

  /** Since `g`, every deletion is requested within the budget. */
  ghost predicate OnlyResubmits(g: History, h: History) {
    forall i | |g| <= i < |h| && IsLookupOrDelete(h[i]) :: MayResubmit(h[..i], h[i].name)
  }

  lemma PollingResubmits(c: Config, g: History, h: History, attempts: nat)
    requires BudgetKept(c, h, attempts) && Polling(g, h)
    ensures OnlyResubmits(g, h)
  {
    SoundWithinBudget(c, h, attempts);
    forall i | |g| <= i < |h| && IsLookupOrDelete(h[i]) ensures MayResubmit(h[..i], h[i].name) {
      PolledSince(g, h, i);
    }
  }

  /** While polling, a deletion is asked for exactly when it is counted. */
  lemma {:induction false} AskingsCounted(c: Config, g: History, h: History)
    requires Sound(c, h) && Polling(g, h)
    ensures Askings(h) - Askings(g) == Resubmissions(h) - Resubmissions(g)
    decreases |h|
  {
    if |g| < |h| {
      var n := |h| - 1;
      SoundPrefix(c, h, n);
      AskingsCounted(c, g, h[..n]);
      if |g| < n {
        PolledSince(g, h, n);
        if IsAsking(h[n]) {
          RequestWithinBudget(c, h, n);
        }
      }
    } else {
      assert g == h;
    }
  }

  lemma SoundPrefix(c: Config, h: History, n: nat)
    requires Sound(c, h) && n <= |h|
    ensures Sound(c, h[..n])
  {
    forall i | 0 <= i < n ensures Genuine(c, h[..n], i) && Justified(c, h[..n], i) {
      assert Genuine(c, h, i) && Justified(c, h, i);
      assert h[..n][..i] == h[..i];
    }
  }

  // ---------------------------------------------------------------- the requests with which a phase begins

  /** Since `from`, and before any poll, the stack was found not to be there or its deletion was accepted. */
  ghost predicate Asked(h: History, from: nat, name: string) {
    exists j :: from <= j < |h| && Asks(h[j], name) && forall k | from <= k < j :: !h[k].Poll?
  }

  lemma AskedLater(h: History, h': History, from: nat, name: string)
    requires h <= h' && Asked(h, from, name)
    ensures Asked(h', from, name)
  {
    var j :| from <= j < |h| && Asks(h[j], name) && forall k | from <= k < j :: !h[k].Poll?;
    assert Asks(h'[j], name) && forall k | from <= k < j :: h'[k] == h[k];
  }

  lemma {:induction false} RequestsStop(c: Config, h: History, names: seq<string>, i: nat)
    requires i <= |names| && !Requests(c, h, names[..i]).outcome.Proceed?
    ensures Requests(c, h, names) == Requests(c, h, names[..i])
    decreases |names|
  {
    if i < |names| {
      var before := names[..|names| - 1];
      assert before[..i] == names[..i];
      RequestsStop(c, h, before, i);
    } else {
      assert names[..i] == names;
    }
  }

  lemma RequestsSnoc(c: Config, h: History, names: seq<string>, i: nat)
    requires i < |names| && Requests(c, h, names[..i]).outcome.Proceed?
    ensures Requests(c, h, names[..i + 1]) == Submit(c, Requests(c, h, names[..i]).history, names[i])
  {
    assert names[..i + 1][..i] == names[..i];
  }

  /** What the requests of a phase have done since it began at `h`. */
  ghost predicate Requested(c: Config, h: History, h': History, stacks: seq<string>, n: nat)
    requires n <= |stacks|
  {
    && Sound(c, h') && DeletesOnly(h, h', NamesOf(stacks)) && LastPoll(h').None?
    && Resubmissions(h') == Resubmissions(h) && Waits(h') == Waits(h) && Askings(h') <= Askings(h) + n
    && (forall k | |h| <= k < |h'| :: !h'[k].Poll?)
  }

  ghost predicate AllAsked(h: History, h': History, names: seq<string>) {
    forall k | 0 <= k < |names| :: Asked(h', |h|, names[k])
  }

  lemma RequestKeeps(c: Config, h: History, h1: History, stacks: seq<string>, i: nat)
    requires i < |stacks| && Requested(c, h, h1, stacks, i) && AllAsked(h, h1, stacks[..i])
    ensures var s := Submit(c, h1, stacks[i]);
            && Requested(c, h, s.history, stacks, i + 1)
            && (s.outcome.Proceed? ==> AllAsked(h, s.history, stacks[..i + 1]))
  {
    hide Submit, Sound, Quietly, Resubmissions, LastPoll, Askings, Waits;
    var name := stacks[i];
    var s := Submit(c, h1, name);
    QuietlyRefl(c, h1, name);
    SubmitIsQuiet(c, h1, h1, name);
    HandledKeeps(c, h1, s.history, name, s.outcome);
    SubmitAsks(c, h1, name);
    assert name in NamesOf(stacks);
    if s.outcome.Proceed? {
      assert Asks(s.history[|s.history| - 1], name);
      forall k | 0 <= k < i ensures Asked(s.history, |h|, stacks[k]) {
        assert stacks[..i][k] == stacks[k];
        AskedLater(h1, s.history, |h|, stacks[k]);
      }
    }
  }

  lemma RequestDone(c: Config, h: History, s: Submission, stacks: seq<string>)
    requires |stacks| == 1 && Requested(c, h, s.history, stacks, 1)
    requires s.outcome.Proceed? ==> AllAsked(h, s.history, stacks[..1])
    ensures Sound(c, s.history) && Resubmissions(s.history) == Resubmissions(h) && Waits(s.history) == Waits(h)
    ensures Askings(s.history) <= Askings(h) + 1 && DeletesOnly(h, s.history, {stacks[0]})
    ensures s.outcome.Proceed? ==> Asked(s.history, |h|, stacks[0])
  {
    hide Sound, Resubmissions, Waits, Askings, LastPoll, Asked;
    assert NamesOf(stacks) == {stacks[0]};
    assert stacks[..1][0] == stacks[0];
  }

  lemma OnlySince(h: History, g: History, h': History, name: string)
    requires DeletesOnly(h, h', {name}) && h <= g <= h'
    ensures DeletesOnly(g, h', {name})
  {
  }

  lemma AllAskedLater(h: History, g: History, h': History, names: seq<string>)
    requires AllAsked(h, g, names) && g <= h'
    ensures forall x | x in names :: Asked(h', |h|, x)
  {
    forall x | x in names ensures Asked(h', |h|, x) {
      var k :| 0 <= k < |names| && names[k] == x;
      assert Asked(g, |h|, names[k]);
      AskedLater(g, h', |h|, x);
    }
  }

  // ---------------------------------------------------------------- what a phase, and a run, cost

  lemma LoopBudget(c: Config, g: History, h: History, attempts: nat)
    requires BudgetKept(c, h, attempts) && Polling(g, h)
    ensures WithinBudget(h, attempts) && OnlyResubmits(g, h)
    ensures Askings(h) - Askings(g) == attempts - Resubmissions(g) && Resubmissions(g) <= attempts
  {
    SoundWithinBudget(c, h, attempts);
    PollingResubmits(c, g, h, attempts);
    AskingsCounted(c, g, h);
    BudgetNeverShrinks(g, h);
  }

  /** From `h` to `h'` a phase over `n` names, none of them more than `m` times, asks for `n` deletions and those counted
      against the budget; and it polls in so many rounds, each but the last followed by a wait. */
  ghost predicate PhaseCosts(h: History, attempts: nat, h': History, attempts': nat, n: nat, b: nat, m: nat) {
    && attempts <= attempts'
    && Askings(h') - Askings(h) <= n + attempts' - attempts
    && Waits(h') - Waits(h) + 1 <= Spells(attempts' - attempts + m, b)
  }

  lemma NoWait(h: History, h': History, attempts: nat, i: nat, n: nat, b: nat, m: nat)
    requires Waits(h') == Waits(h) && Askings(h') <= Askings(h) + i && i <= n && 1 <= m
    ensures PhaseCosts(h, attempts, h', attempts, n, b, m)
  {
    hide Askings, Waits;
    SpellsMonotone(1, m, b);
  }

  /** What the polling loop over `names` costs, from `g` on: it asks for deletions within the budget only, counts each,
      and so takes a bounded number of rounds, each but the last followed by a wait. */
  ghost predicate LoopCosts(g: History, attempts: nat, h: History, attempts': nat, names: seq<string>, b: nat, m: nat) {
    && attempts <= attempts' && WithinBudget(h, attempts') && OnlyResubmits(g, h)
    && Askings(h) - Askings(g) == attempts' - attempts
    && if names == [] then Waits(h) == Waits(g) else Waits(h) - Waits(g) + 1 <= Spells(attempts' - attempts + m, b)
  }

  lemma PhaseAdds(h: History, g: History, attempts: nat, h': History, attempts': nat, stacks: seq<string>, b: nat, m: nat)
    requires Waits(g) == Waits(h) && Askings(g) <= Askings(h) + |stacks| && 1 <= m
    requires LoopCosts(g, attempts, h', attempts', stacks, b, m)
    ensures PhaseCosts(h, attempts, h', attempts', |stacks|, b, m)
  {
    hide Askings, Waits, WithinBudget, OnlyResubmits;
    SpellsMonotone(1, attempts' - attempts + m, b);
  }

  /** A run that has been through `k` phases over `n` names in all. */
  ghost predicate RunCosts(h: History, attempts: nat, n: nat, k: nat, b: nat, m: nat) {
    Askings(h) <= n + attempts && Waits(h) + k <= Spells(attempts + k * m, b)
  }

  lemma PhaseAdded(h: History, attempts: nat, h': History, attempts': nat, n: nat, i: nat, k: nat, b: nat, m: nat)
    requires RunCosts(h, attempts, n, k, b, m) && PhaseCosts(h, attempts, h', attempts', i, b, m)
    ensures RunCosts(h', attempts', n + i, k + 1, b, m)
  {
    hide Askings, Waits;
    SpellsAdd(attempts + k * m, attempts' - attempts + m, b);
    assert attempts + k * m + (attempts' - attempts + m) == attempts' + (k + 1) * m;
  }

  lemma {:induction false} PhasesLeft(h: History, attempts: nat, n: nat, i: nat, k: nat, l: nat, b: nat, m: nat)
    requires RunCosts(h, attempts, n, k, b, m) && n <= i && k <= l && 1 <= m
    ensures RunCosts(h, attempts, i, l, b, m)
    decreases l - k
  {
    if k < l {
      NoWait(h, h, attempts, 0, 0, b, m);
      PhaseAdded(h, attempts, h, attempts, n, 0, k, b, m);
      PhasesLeft(h, attempts, n, i, k + 1, l, b, m);
    }
  }

  ghost predicate NamesAtMost(names: seq<string>, m: nat) {
    forall x :: multiset(names)[x] <= m
  }

  /** No phase has a name more than `m` times. */
  ghost predicate AtMost(f: Stacks, m: nat) {
    NamesAtMost(f.ordinary, m) && NamesAtMost(f.identity, m) && NamesAtMost(f.cluster, m)
  }

  ghost function Multiplicity(f: Stacks, m: nat): nat {
    if 1 <= m && AtMost(f, m) then m else 1 + |f.ordinary| + |f.identity| + |f.cluster|
  }

  lemma MultiplicityBounds(f: Stacks, m: nat)
    ensures 1 <= Multiplicity(f, m) && AtMost(f, Multiplicity(f, m))
  {
    CountsWithinLength(f.ordinary);
    CountsWithinLength(f.identity);
    CountsWithinLength(f.cluster);
  }

  lemma {:induction false} CountsWithinLength(names: seq<string>)
    ensures forall x :: multiset(names)[x] <= |names|
  {
    if names != [] {
      CountsWithinLength(names[1..]);
      assert names == [names[0]] + names[1..];
    }
  }

  /** The deletions asked for and the rounds polled in a whole run over `f`. */
  ghost predicate WithinCosts(h: History, attempts: nat, f: Stacks, b: nat, m: nat) {
    && Askings(h) <= |f.ordinary| + |f.identity| + |f.cluster| + 1 + attempts
    && (1 <= m && AtMost(f, m) ==> Waits(h) + 3 <= Spells(attempts + 3 * m, b))
  }

  lemma NothingSpent(h: History, f: Stacks, b: nat, m: nat)
    requires Askings(h) == 0 && Waits(h) == 0
    ensures WithinCosts(h, 0, f, b, m) && RunCosts(h, 0, 0, 0, b, Multiplicity(f, m))
  {
    hide Askings, Waits;
    if 1 <= m {
      SpellsMonotone(3, 3 * m, b);
    }
  }

  lemma RunIsWithinCosts(h: History, attempts: nat, f: Stacks, b: nat, m: nat)
    requires RunCosts(h, attempts, |f.ordinary| + |f.identity| + |f.cluster| + 1, 3, b, Multiplicity(f, m))
    ensures WithinCosts(h, attempts, f, b, m)
  {
    hide Askings, Waits, AtMost;
  }
}
