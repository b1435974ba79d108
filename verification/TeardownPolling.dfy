/** The retry budget and the number of polling rounds. */
module TeardownPolling {
  import opened TeardownModel
  import opened TeardownSteps

  /** The rounds the polling loop may take: one budgeted resubmission, or one listed occurrence, ends each spell of
      at most `b` quiet polls. */
  function Bound(attempts: nat, m: nat, b: nat): int {
    Spells(MAX_ATTEMPTS - attempts + m, b)
  }

  function Min(x: int, y: int): int {
    if x < y then x else y
  }

  /** The polls in `t` spells of at most `b` quiet polls and a terminal one. */
  function Spells(t: int, b: nat): int {
    t * (b + 1)
  }

  /** Since `g`, the polls of a stack are at most `b + 1` for each terminal status, and the quiet ones since. */
  ghost predicate Ledger(g: History, h: History, x: string, b: nat) {
    Polls(h, x) - Polls(g, x) <= Spells(TerminalPolls(h, x) - TerminalPolls(g, x), b) + Min(Quiet(h, x), b)
  }

  lemma OneMore(t: int, b: nat)
    ensures Spells(t + 1, b) == Spells(t, b) + b + 1
  {
  }

  lemma LedgerKept(g: History, h: History, h': History, name: string, reply: Reply, b: nat, x: string)
    requires Ledger(g, h, x, b) && PollCounts(h, h', name, reply)
    requires Quiet(h, name) >= b ==> IsTerminal(reply)
    ensures Ledger(g, h', x, b)
  {
    hide SettledAs, Polls, TerminalPolls, Quiet, ResubmissionsOf, Resubmissions, Waits;
    var t := TerminalPolls(h, x) - TerminalPolls(g, x);
    OneMore(t, b);
    assert TerminalPolls(h', x) - TerminalPolls(g, x) == if x == name && IsTerminal(reply) then t + 1 else t;
  }

  /** The terminal statuses of a stack since `g`: each was followed by a resubmission, or settled the stack. */
  ghost predicate Accounted(g: History, h: History, x: string) {
    && TerminalPolls(h, x) - TerminalPolls(g, x)
         <= ResubmissionsOf(h, x) - ResubmissionsOf(g, x) + AllSettled(h)[x] - AllSettled(g)[x]
    && ResubmissionsOf(h, x) - ResubmissionsOf(g, x) <= Resubmissions(h) - Resubmissions(g)
  }

  lemma AccountedKept(g: History, h: History, h': History, name: string, reply: Reply, settled: bool, x: string)
    requires Accounted(g, h, x) && PollCounts(h, h', name, reply)
    requires AllSettled(h') == Added(AllSettled(h), settled, name)
    requires Resubmissions(h') >= Resubmissions(h)
    ensures Accounted(g, h', x)
  {
    hide SettledAs, Polls, TerminalPolls, Quiet, ResubmissionsOf, Resubmissions, Waits;
  }

  lemma TerminalPollsBounded(g: History, h: History, x: string, m: nat)
    requires Accounted(g, h, x)
    requires AllSettled(h)[x] - AllSettled(g)[x] < m
    ensures TerminalPolls(h, x) - TerminalPolls(g, x) < Resubmissions(h) - Resubmissions(g) + m
  {
    hide SettledAs, Polls, TerminalPolls, Quiet, ResubmissionsOf, Resubmissions, Waits;
  }

  /** A stack still pending after `r` rounds, each of which polled it, leaves room for another round. */
  lemma PendingLeavesRoom(g: History, h: History, x: string, b: nat, u: int, r: int)
    requires Ledger(g, h, x, b)
    requires TerminalPolls(h, x) - TerminalPolls(g, x) < u
    requires r <= Polls(h, x) - Polls(g, x)
    ensures r < Spells(u, b)
  {
    hide SettledAs, Polls, TerminalPolls, Quiet, ResubmissionsOf, Resubmissions, Waits;
    SpellsBound(r, Polls(h, x) - Polls(g, x), TerminalPolls(h, x) - TerminalPolls(g, x), u, Min(Quiet(h, x), b), b);
  }

  lemma SpellsMonotone(t: int, u: int, b: nat)
    requires t <= u
    ensures Spells(t, b) <= Spells(u, b)
  {
  }

  lemma SpellsAdd(t: int, u: int, b: nat)
    ensures Spells(t, b) + Spells(u, b) == Spells(t + u, b)
  {
  }

  /** `t < u` spells of at most `b + 1` polls, and at most `b` more. */
  lemma SpellsBound(r: int, polls: int, t: int, u: int, q: int, b: nat)
    requires r <= polls <= Spells(t, b) + q && q <= b && t < u
    ensures r < Spells(u, b)
  {
    SpellsMonotone(t, u - 1, b);
    OneMore(u - 1, b);
  }

  // ---------------------------------------------------------------- one round over the pending stacks

  /** The attempt counter is the number of resubmissions, within the budget, of a sound history. */
  ghost predicate BudgetKept(c: Config, h: History, attempts: nat) {
    attempts == Resubmissions(h) <= MAX_ATTEMPTS && Sound(c, h)
  }

  function NamesOf(names: seq<string>): set<string> {
    set x | x in names
  }

  function GivenUp(h: History): nat {
    |SettledAs(h, GaveUp)|
  }

  /** Ledgers of all stacks since the call began at `g`. */
  ghost predicate Ledgers(g: History, h: History, b: nat) {
    forall x :: Ledger(g, h, x, b) && Accounted(g, h, x)
  }

  /** A round that began at `s` settled `deleted`, among the stacks `pending[..i]` it polled. */
  ghost predicate RoundSettled(s: History, h: History, pending: seq<string>, i: nat, deleted: seq<string>, failed: nat)
    requires i <= |pending|
  {
    && AllSettled(h) == AllSettled(s) + multiset(deleted) && multiset(deleted) <= multiset(pending[..i])
    && GivenUp(h) == GivenUp(s) + failed
  }

  /** A round that began at `s` polled each of `pending[..i]`. */
  ghost predicate RoundPolled(g: History, s: History, h: History, pending: seq<string>, i: nat, b: nat)
    requires i <= |pending|
  {
    && Ledgers(g, h, b)
    && (forall x :: Polls(h, x) >= Polls(s, x))
    && (forall j | 0 <= j < i :: Polls(h, pending[j]) > Polls(s, pending[j]))
  }

  ghost predicate Round(c: Config, g: History, s: History, h: History, attempts: nat, pending: seq<string>, i: nat,
                        deleted: seq<string>, failed: nat, b: nat)
    requires i <= |pending|
  {
    && BudgetKept(c, h, attempts) && Resubmissions(s) <= attempts
    && DeletesOnly(s, h, NamesOf(pending)) && Waits(h) == Waits(s) && Polling(s, h)
    && RoundSettled(s, h, pending, i, deleted, failed)
    && RoundPolled(g, s, h, pending, i, b)
  }

  lemma LedgersKept(g: History, h: History, h': History, name: string, reply: Reply, settled: bool, b: nat)
    requires Ledgers(g, h, b) && PollCounts(h, h', name, reply)
    requires Quiet(h, name) >= b ==> IsTerminal(reply)
    requires AllSettled(h') == Added(AllSettled(h), settled, name)
    requires Resubmissions(h') >= Resubmissions(h)
    ensures Ledgers(g, h', b)
  {
    hide SettledAs, Polls, TerminalPolls, Quiet, ResubmissionsOf, Resubmissions, Waits;
    forall x ensures Ledger(g, h', x, b) && Accounted(g, h', x) {
      LedgerKept(g, h, h', name, reply, b, x);
      AccountedKept(g, h, h', name, reply, settled, x);
    }
  }

  lemma LedgerSame(g: History, h: History, h': History, x: string, b: nat)
    requires Ledger(g, h, x, b)
    requires Polls(h', x) == Polls(h, x) && TerminalPolls(h', x) == TerminalPolls(h, x) && Quiet(h', x) == Quiet(h, x)
    ensures Ledger(g, h', x, b)
  {
    hide SettledAs, Polls, TerminalPolls, Quiet, ResubmissionsOf, Resubmissions, Waits;
  }

  lemma LedgersSame(g: History, h: History, h': History, b: nat)
    requires Ledgers(g, h, b) && Resubmissions(h') == Resubmissions(h) && AllSettled(h') == AllSettled(h)
    requires forall x :: Polls(h', x) == Polls(h, x) && TerminalPolls(h', x) == TerminalPolls(h, x)
                         && ResubmissionsOf(h', x) == ResubmissionsOf(h, x) && Quiet(h', x) == Quiet(h, x)
    ensures Ledgers(g, h', b)
  {
    hide SettledAs, Polls, TerminalPolls, Quiet, ResubmissionsOf, Resubmissions, Waits;
    forall x ensures Ledger(g, h', x, b) && Accounted(g, h', x) {
      assert Ledger(g, h, x, b) && Accounted(g, h, x);
      LedgerSame(g, h, h', x, b);
    }
  }

  lemma RoundSettledNext(c: Config, s: History, h: History, attempts: nat, pending: seq<string>, i: nat,
                         deleted: seq<string>, failed: nat, reply: Reply, p: Polled)
    requires i < |pending| && RoundSettled(s, h, pending, i, deleted, failed)
    requires PollKeeps(c, h, attempts, pending[i], reply, p) && p.outcome.Proceed?
    ensures RoundSettled(s, p.history, pending, i + 1,
                         if p.settled then deleted + [pending[i]] else deleted,
                         if p.gaveUp then failed + 1 else failed)
  {
    hide SettledAs, Polls, TerminalPolls, Quiet, ResubmissionsOf, Resubmissions, Waits;
    var name := pending[i];
    TakenFrom(pending, i, deleted);
    assert SettledAs(p.history, GaveUp) == Added(SettledAs(h, GaveUp), p.gaveUp, name);
    assert multiset(deleted + [name]) == multiset(deleted) + multiset{name};
    Regroup(AllSettled(s), multiset(deleted), multiset{name});
  }

  lemma RoundPolledNext(c: Config, g: History, s: History, h: History, attempts: nat, pending: seq<string>, i: nat,
                        b: nat, reply: Reply, p: Polled)
    requires i < |pending| && RoundPolled(g, s, h, pending, i, b) && Resubmissions(h) == attempts
    requires PollKeeps(c, h, attempts, pending[i], reply, p) && p.outcome.Proceed?
    requires Quiet(h, pending[i]) >= b ==> IsTerminal(reply)
    ensures RoundPolled(g, s, p.history, pending, i + 1, b)
  {
    hide SettledAs, Polls, TerminalPolls, Quiet, ResubmissionsOf, Resubmissions, Waits;
    LedgersKept(g, h, p.history, pending[i], reply, p.settled, b);
    assert forall j | 0 <= j < i + 1 :: Polls(p.history, pending[j]) > Polls(s, pending[j]);
  }

  lemma PollingOn(g: History, h: History, h': History)
    requires Polling(g, h) && Polling(h, h')
    ensures Polling(g, h')
  {
    assert |g| < |h| ==> h'[|g|] == h[|g|];
  }

  lemma RoundStep(c: Config, g: History, s: History, h: History, attempts: nat, pending: seq<string>, i: nat,
                  deleted: seq<string>, failed: nat, b: nat)
    requires i < |pending| && Round(c, g, s, h, attempts, pending, i, deleted, failed, b) && Responsive(c.env, b)
    ensures var p := PollStep(c, h, attempts, pending[i]);
            && BudgetKept(c, p.history, p.attempts) && DeletesOnly(s, p.history, NamesOf(pending))
            && Polling(s, p.history) && Waits(p.history) == Waits(s) && Resubmissions(s) <= p.attempts
            && (p.outcome.Proceed? ==>
                  Round(c, g, s, p.history, p.attempts, pending, i + 1,
                        if p.settled then deleted + [pending[i]] else deleted,
                        if p.gaveUp then failed + 1 else failed, b))
  {
    hide SettledAs, Polls, TerminalPolls, Quiet, ResubmissionsOf, Resubmissions, Waits;
    var p, reply := PollStep(c, h, attempts, pending[i]), c.env.poll(h, pending[i]);
    PollStepKeeps(c, h, attempts, pending[i]);
    PollStepPolls(c, h, attempts, pending[i]);
    PollingOn(s, h, p.history);
    assert pending[i] in NamesOf(pending);
    if p.outcome.Proceed? {
      RoundSettledNext(c, s, h, attempts, pending, i, deleted, failed, reply, p);
      RoundPolledNext(c, g, s, h, attempts, pending, i, b, reply, p);
    }
  }

  lemma Regroup(a: multiset<string>, b: multiset<string>, c: multiset<string>)
    ensures a + b + c == a + (b + c)
  {
  }

  lemma TakenFrom(pending: seq<string>, i: nat, deleted: seq<string>)
    requires i < |pending| && multiset(deleted) <= multiset(pending[..i])
    ensures multiset(deleted) <= multiset(pending[..i + 1])
    ensures multiset(deleted + [pending[i]]) <= multiset(pending[..i + 1])
  {
    assert pending[..i + 1] == pending[..i] + [pending[i]];
  }

  // ---------------------------------------------------------------- between two rounds

  /** After `rounds` rounds of the call that began at `g`: every listed stack is pending or settled. */
  ghost predicate Between(c: Config, g: History, h: History, attempts: nat, names: seq<string>, pending: seq<string>,
                          failed: nat, rounds: nat, b: nat)
  {
    && BudgetKept(c, h, attempts) && Resubmissions(g) <= attempts && DeletesOnly(g, h, NamesOf(names)) && Polling(g, h)
    && AllSettled(h) + multiset(pending) == AllSettled(g) + multiset(names)
    && GivenUp(h) == GivenUp(g) + failed
    && Ledgers(g, h, b)
    && (forall x | x in pending :: x in names && Polls(h, x) - Polls(g, x) >= rounds)
    && Waits(h) - Waits(g) == if pending == [] && rounds > 0 then rounds - 1 else rounds
  }

  lemma BetweenAtStart(c: Config, g: History, attempts: nat, names: seq<string>, b: nat)
    requires BudgetKept(c, g, attempts)
    ensures Between(c, g, g, attempts, names, names, 0, 0, b)
  {
  }

  lemma StillUnsettled(before: multiset<string>, after: multiset<string>, names: seq<string>, pending: seq<string>, m: nat)
    requires after + multiset(pending) == before + multiset(names) && pending != []
    requires forall x :: multiset(names)[x] <= m
    ensures after[pending[0]] - before[pending[0]] < m
  {
    var x := pending[0];
    assert multiset(pending)[x] > 0;
    assert (after + multiset(pending))[x] == (before + multiset(names))[x];
  }

  lemma RoomForARound(c: Config, g: History, h: History, attempts: nat, names: seq<string>, pending: seq<string>,
                      failed: nat, rounds: nat, b: nat, m: nat)
    requires Between(c, g, h, attempts, names, pending, failed, rounds, b) && pending != []
    requires forall x :: multiset(names)[x] <= m
    ensures rounds < Spells(attempts - Resubmissions(g) + m, b) <= Bound(Resubmissions(g), m, b)
  {
    hide SettledAs, Polls, TerminalPolls, Quiet, ResubmissionsOf, Resubmissions, Waits;
    var x := pending[0];
    StillUnsettled(AllSettled(g), AllSettled(h), names, pending, m);
    TerminalPollsBounded(g, h, x, m);
    PendingLeavesRoom(g, h, x, b, attempts - Resubmissions(g) + m, rounds);
    SpellsMonotone(attempts - Resubmissions(g) + m, MAX_ATTEMPTS - Resubmissions(g) + m, b);
  }

  lemma StillPending(g: History, s: History, h: History, names: seq<string>, pending: seq<string>,
                     pending': seq<string>, deleted: seq<string>, rounds: nat, b: nat)
    requires forall x | x in pending :: x in names && Polls(s, x) - Polls(g, x) >= rounds
    requires RoundPolled(g, s, h, pending, |pending|, b)
    requires multiset(pending') == multiset(pending) - multiset(deleted)
    ensures forall x | x in pending' :: x in names && Polls(h, x) - Polls(g, x) >= rounds + 1
  {
    hide SettledAs, Polls, TerminalPolls, Quiet, ResubmissionsOf, Resubmissions, Waits;
    forall x | x in pending' ensures x in names && Polls(h, x) - Polls(g, x) >= rounds + 1 {
      assert x in multiset(pending');
      assert x in pending;
      var j :| 0 <= j < |pending| && pending[j] == x;
      assert Polls(h, pending[j]) > Polls(s, pending[j]);
    }
  }

  lemma RoundDone(c: Config, g: History, s: History, h: History, attempts0: nat, attempts: nat, names: seq<string>, pending: seq<string>,
                  pending': seq<string>, deleted: seq<string>, failed: nat, newlyFailed: nat, rounds: nat, b: nat)
    requires Between(c, g, s, attempts0, names, pending, failed, rounds, b) && pending != []
    requires Round(c, g, s, h, attempts, pending, |pending|, deleted, newlyFailed, b)
    requires multiset(pending') == multiset(pending) - multiset(deleted)
    ensures var h' := if pending' == [] then h else h + [Wait];
            Between(c, g, h', attempts, names, pending', failed + newlyFailed, rounds + 1, b)
  {
    hide SettledAs, Polls, TerminalPolls, Quiet, ResubmissionsOf, Resubmissions, Waits;
    var h' := if pending' == [] then h else h + [Wait];
    StillPending(g, s, h, names, pending, pending', deleted, rounds, b);
    WaitSnoc(c, h);
    Balanced(AllSettled(g), AllSettled(s), AllSettled(h), names, pending, pending', deleted);
    assert NamesOf(pending) <= NamesOf(names);
    LedgersSame(g, h, h', b);
    PollingOn(g, s, h);
    assert Polls(h, pending[0]) > Polls(s, pending[0]);
    assert |g| < |h| by {
      if h == s {
        assert false;
      }
    }
    WaitPolls(g, h);
  }

  /** Waiting after a round goes on polling. */
  lemma WaitPolls(g: History, h: History)
    requires Polling(g, h) && |g| < |h|
    ensures Polling(g, h + [Wait])
  {
  }

  lemma Balanced(start: multiset<string>, before: multiset<string>, after: multiset<string>,
                 names: seq<string>, pending: seq<string>, pending': seq<string>, deleted: seq<string>)
    requires before + multiset(pending) == start + multiset(names)
    requires after == before + multiset(deleted) && multiset(deleted) <= multiset(pending[..|pending|])
    requires multiset(pending') == multiset(pending) - multiset(deleted)
    ensures after + multiset(pending') == start + multiset(names)
  {
    assert pending[..|pending|] == pending;
    assert multiset(deleted) + multiset(pending') == multiset(pending);
    Regroup(before, multiset(deleted), multiset(pending'));
  }

  lemma WaitSnoc(c: Config, h: History)
    ensures var g := h + [Wait];
            && Resubmissions(g) == Resubmissions(h) && Waits(g) == Waits(h) + 1
            && (forall v :: SettledAs(g, v) == SettledAs(h, v))
            && (forall x :: Polls(g, x) == Polls(h, x) && TerminalPolls(g, x) == TerminalPolls(h, x)
                            && ResubmissionsOf(g, x) == ResubmissionsOf(h, x) && Quiet(g, x) == Quiet(h, x))
            && (Sound(c, h) ==> Sound(c, g))
  {
    Snoc(h, Wait);
    if Sound(c, h) {
      SoundSnoc(c, h, Wait);
    }
  }
}
