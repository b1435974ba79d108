/** What one deletion request, and one poll of one stack, add to the history. */
module TeardownSteps {
  import opened Wrappers
  import opened TeardownModel

  lemma Snoc(h: History, e: Event)
    ensures (h + [e])[..|h + [e]| - 1] == h && (h + [e])[|h + [e]| - 1] == e
  {
  }

  // ---------------------------------------------------------------- sound histories

  /** The answer recorded at `i` is the one the environment gives to what was asked, after what came before. */
  predicate Genuine(c: Config, h: History, i: nat)
    requires i < |h|
  {
    var before := h[..i];
    match h[i]
    case Listed(arn, reply) => reply == c.env.describe(before, arn)
    case Lookup(name, reply) => reply == c.env.describe(before, name)
    case Prompt(name, yes) => yes == c.env.confirm(before, name)
    case Unprotect(name, answer) => answer == c.env.unprotect(before, name)
    case Delete(name, answer) => answer == c.env.delete(before, name)
    case Poll(name, reply) => reply == c.env.poll(before, name)
    case CleanEnis(_, answer) => answer == c.env.cleanEnis(before)
    case Stage(what, proceeds) => proceeds == c.env.stage(before, what)
    case _ => true
  }

  /** A description that found the stack, with its termination protection as given. */
  predicate IsFound(e: Event, name: string, isProtected: bool) {
    e.Lookup? && e.name == name && e.reply.Found? && e.reply.isProtected == isProtected
  }

  /** Just before, the stack was seen to have failed; at most the clean-up beside it lies between. */
  predicate JustFailed(h: History, name: string) {
    && h != []
    && var e := h[|h| - 1];
       || (IsFailure(e) && e.name == name)
       || (e.CleanEnis? && e.name == name && |h| > 1 && IsFailure(h[|h| - 2]) && h[|h| - 2].name == name)
  }

  /** A deletion may be requested in two cases: the phase has polled nothing yet; or the stack was just seen to have
      failed, and the budget is not spent. */
  predicate MayRequest(h: History, name: string) {
    LastPoll(h).None? || (JustFailed(h, name) && Resubmissions(h) < MAX_ATTEMPTS)
  }

  /** What is done at `i` follows from what came before: a request begins only when it may; a stack is only deleted when
      it was just found unprotected or its protection was just lifted, which takes `force` or a confirmation. */
  predicate Justified(c: Config, h: History, i: nat)
    requires i < |h|
  {
    match h[i]
    case Lookup(name, _) => MayRequest(h[..i], name)
    case Prompt(name, _) => i > 0 && !c.force && IsFound(h[i - 1], name, true)
    case Unprotect(name, _) => i > 0 && (h[i - 1] == Prompt(name, true) || (c.force && IsFound(h[i - 1], name, true)))
    case Delete(name, _) => i > 0 && (h[i - 1] == Unprotect(name, Accepted) || IsFound(h[i - 1], name, false))
    case CleanEnis(name, _) => i > 0 && IsAnalyticsStack(c, name) && h[i - 1].Poll? && h[i - 1].name == name
    case _ => true
  }

  ghost predicate Sound(c: Config, h: History) {
    forall i | 0 <= i < |h| :: Genuine(c, h, i) && Justified(c, h, i)
  }

  lemma SoundSnoc(c: Config, h: History, e: Event)
    requires Sound(c, h) && Genuine(c, h + [e], |h|) && Justified(c, h + [e], |h|)
    ensures Sound(c, h + [e])
  {
    forall i | 0 <= i < |h + [e]| ensures Genuine(c, h + [e], i) && Justified(c, h + [e], i) {
      if i < |h| {
        assert Genuine(c, h, i) && Justified(c, h, i);
        assert (h + [e])[..i] == h[..i];
      }
    }
  }

  /** In a sound history a stack is deleted only after it was found and, if it was protected, after forced or
      confirmed lifting of its protection. */
  lemma DeletionIsConsented(c: Config, h: History, i: nat)
    requires Sound(c, h) && i < |h| && h[i].Delete?
    ensures exists j :: 0 <= j < i && h[j] == Lookup(h[i].name, c.env.describe(h[..j], h[i].name)) && h[j].reply.Found?
              && (h[j].reply.isProtected ==>
                    && h[i - 1] == Unprotect(h[i].name, c.env.unprotect(h[..i - 1], h[i].name)) && h[i - 1].answer.Accepted?
                    && (c.force || (h[i - 2] == Prompt(h[i].name, c.env.confirm(h[..i - 2], h[i].name)) && h[i - 2].yes)))
  {
    assert Justified(c, h, i);
    var j := i - 1;
    assert Genuine(c, h, i - 1) && Justified(c, h, i - 1);
    if h[i - 1].Unprotect? {
      j := i - 2;
      assert Genuine(c, h, i - 2) && Justified(c, h, i - 2);
      if h[i - 2].Prompt? {
        j := i - 3;
        assert Genuine(c, h, i - 3);
      }
    }
    assert h[j] == Lookup(h[i].name, c.env.describe(h[..j], h[i].name));
  }

  // ---------------------------------------------------------------- events that count for nothing

  predicate Neutral(e: Event) {
    (e.Listed? || e.Lookup? || e.Prompt? || e.Stage? || (IsRequest(e) && !IsRejection(e))) && !IsAsking(e)
  }

  ghost predicate SameCounts(h: History, h': History) {
    && Resubmissions(h') == Resubmissions(h) && Waits(h') == Waits(h) && Askings(h') == Askings(h)
    && (forall v :: SettledAs(h', v) == SettledAs(h, v))
    && (forall x :: Polls(h', x) == Polls(h, x))
    && (forall x :: TerminalPolls(h', x) == TerminalPolls(h, x))
    && (forall x :: ResubmissionsOf(h', x) == ResubmissionsOf(h, x))
  }

  lemma NeutralCounts(h: History, e: Event)
    requires Neutral(e)
    ensures SameCounts(h, h + [e])
    ensures forall x :: Quiet(h + [e], x) == if e.Delete? && e.name == x then 0 else Quiet(h, x)
    ensures LastPoll(h + [e]) == if e.Stage? then None else LastPoll(h)
  {
    NeutralSettles(h, e);
    hide SettledAs;
    Snoc(h, e);
  }

  lemma NeutralSettles(h: History, e: Event)
    requires Neutral(e)
    ensures forall v :: SettledAs(h + [e], v) == SettledAs(h, v)
  {
    hide LastPoll, Resubmissions;
    Snoc(h, e);
  }

  /** Since `h`, only deletions of these stacks were requested. */
  ghost predicate DeletesOnly(h: History, h': History, names: set<string>) {
    h <= h' && forall i | |h| <= i < |h'| && h'[i].Delete? :: h'[i].name in names
  }

  lemma DeletesOnlySnoc(h: History, h': History, names: set<string>, e: Event)
    requires DeletesOnly(h, h', names) && (e.Delete? ==> e.name in names)
    ensures DeletesOnly(h, h' + [e], names)
  {
  }

  // ---------------------------------------------------------------- Submit

  /** What a step that settles nothing keeps. */
  ghost predicate Quietly(c: Config, h: History, h': History, name: string) {
    && DeletesOnly(h, h', {name}) && SameCounts(h, h') && LastPoll(h') == LastPoll(h)
    && (Sound(c, h) ==> Sound(c, h'))
    && (forall x | x != name :: Quiet(h', x) == Quiet(h, x))
    && Quiet(h', name) <= Quiet(h, name)
  }

  lemma QuietlySnoc(c: Config, h: History, h': History, name: string, e: Event)
    requires Quietly(c, h, h', name) && Neutral(e) && !e.Stage? && (e.Delete? ==> e.name == name)
    requires Genuine(c, h' + [e], |h'|) && Justified(c, h' + [e], |h'|)
    ensures Quietly(c, h, h' + [e], name)
  {
    hide SettledAs, Polls, TerminalPolls, Quiet, ResubmissionsOf, Resubmissions, Waits, Genuine, Justified, LastPoll;
    NeutralCounts(h', e);
    DeletesOnlySnoc(h, h', {name}, e);
    if Sound(c, h') {
      SoundSnoc(c, h', e);
    }
  }

  lemma QuietlyRefl(c: Config, h: History, name: string)
    ensures Quietly(c, h, h, name)
  {
  }

  /** A step that handled one stack quietly, but for its last event: a deletion asked for, when it ended normally, or a
      rejection, when its outcome is Invalid. */
  ghost predicate Handled(c: Config, h: History, h': History, name: string, outcome: Outcome) {
    if outcome.Proceed? || outcome.Invalid? then
      && h' != [] && Quietly(c, h, h'[..|h'| - 1], name)
      && (if outcome.Proceed? then Asks(h'[|h'| - 1], name) else IsRejection(h'[|h'| - 1]) && h'[|h'| - 1].name == name)
      && Genuine(c, h', |h'| - 1) && Justified(c, h', |h'| - 1)
    else Quietly(c, h, h', name)
  }

  lemma HandledRequest(c: Config, g: History, h: History, name: string, e: Event)
    requires Quietly(c, g, h, name) && IsRequest(e) && e.name == name
    requires Genuine(c, h + [e], |h|) && Justified(c, h + [e], |h|)
    ensures e.Delete? || !e.answer.Accepted? ==> Handled(c, g, h + [e], name, OutcomeOf(e.answer))
    ensures !e.Delete? && e.answer.Accepted? ==> Quietly(c, g, h + [e], name)
  {
    hide SettledAs, Polls, TerminalPolls, Quiet, ResubmissionsOf, Resubmissions, Waits, Genuine, Justified, Quietly;
    Snoc(h, e);
    if !IsRejection(e) && !IsAsking(e) {
      QuietlySnoc(c, g, h, name, e);
    }
  }

  lemma RequestIsQuiet(c: Config, g: History, h: History, name: string)
    requires Quietly(c, g, h, name) && h != []
    requires h[|h| - 1] == Unprotect(name, Accepted) || IsFound(h[|h| - 1], name, false)
    ensures var s := Request(c, h, name); Handled(c, g, s.history, name, s.outcome)
  {
    hide Quietly;
    HandledRequest(c, g, h, name, Delete(name, c.env.delete(h, name)));
  }

  lemma UnlockIsQuiet(c: Config, g: History, h: History, name: string)
    requires Quietly(c, g, h, name) && h != []
    requires h[|h| - 1] == Prompt(name, true) || (c.force && IsFound(h[|h| - 1], name, true))
    ensures var s := Unlock(c, h, name); Handled(c, g, s.history, name, s.outcome)
  {
    hide Quietly;
    var e := Unprotect(name, c.env.unprotect(h, name));
    HandledRequest(c, g, h, name, e);
    if e.answer.Accepted? {
      RequestIsQuiet(c, g, h + [e], name);
    }
  }

  /** A deletion request settles nothing, except that it may end with a rejection. */
  lemma SubmitIsQuiet(c: Config, g: History, h: History, name: string)
    requires Quietly(c, g, h, name) && MayRequest(h, name)
    ensures var s := Submit(c, h, name); Handled(c, g, s.history, name, s.outcome)
  {
    hide Quietly, LastPoll, Resubmissions, JustFailed;
    var e := Lookup(name, c.env.describe(h, name));
    var h1 := h + [e];
    Snoc(h, e);
    if !e.reply.NoSuchStack? {
      QuietlySnoc(c, g, h, name, e);
    }
    if e.reply.Found? {
      if !e.reply.isProtected {
        RequestIsQuiet(c, g, h1, name);
      } else if c.force {
        UnlockIsQuiet(c, g, h1, name);
      } else {
        var p := Prompt(name, c.env.confirm(h1, name));
        QuietlySnoc(c, g, h1, name, p);
        if p.yes {
          UnlockIsQuiet(c, g, h1 + [p], name);
        }
      }
    }
  }

  /** A request polls nothing, and ends normally only when the stack was not there or its deletion was accepted. */
  lemma SubmitAsks(c: Config, h: History, name: string)
    ensures var s := Submit(c, h, name);
            && |h| < |s.history| && h <= s.history
            && (forall i | |h| <= i < |s.history| :: !s.history[i].Poll? && !s.history[i].Stage?)
            && (s.outcome.Proceed? <==> Asks(s.history[|s.history| - 1], name))
  {
  }

  /** The answer that makes a step end other than normally. */
  predicate Stops(e: Event, outcome: Outcome) {
    match outcome
    case Proceed => false
    case Exit => (e.Prompt? && !e.yes) || (e.Stage? && !e.proceeds)
    case Invalid => IsRejection(e)
    case Raised =>
      || ((e.Listed? || e.Lookup? || e.Poll?) && e.reply.OtherError?)
      || (IsRequest(e) && e.answer.OtherFailure?)
      || (e.Stage? && !e.proceeds)
  }

  lemma SubmitStops(c: Config, h: History, name: string)
    ensures var s := Submit(c, h, name);
            |s.history| > 0 && (!s.outcome.Proceed? ==> Stops(s.history[|s.history| - 1], s.outcome))
  {
  }

  lemma PollStepStops(c: Config, h: History, attempts: nat, name: string)
    ensures var p := PollStep(c, h, attempts, name);
            |p.history| > 0 && (!p.outcome.Proceed? ==> Stops(p.history[|p.history| - 1], p.outcome))
  {
    hide Submit;
    var h1 := h + [Poll(name, c.env.poll(h, name))];
    SubmitStops(c, h1, name);
    SubmitStops(c, h1 + [CleanEnis(name, c.env.cleanEnis(h1))], name);
  }

  /** Since `g` only polls and what follows them: no stage, and nothing before the first poll. */
  ghost predicate Polling(g: History, h: History) {
    g <= h && (|g| < |h| ==> h[|g|].Poll?) && forall i | |g| <= i < |h| :: !h[i].Stage?
  }

  lemma PollStepPolls(c: Config, h: History, attempts: nat, name: string)
    ensures Polling(h, PollStep(c, h, attempts, name).history)
  {
    hide Submit, IsModuleStack;
    var h1 := h + [Poll(name, c.env.poll(h, name))];
    ResubmitPolls(c, h, h1, attempts, name);
    ResubmitPolls(c, h, h1 + [CleanEnis(name, c.env.cleanEnis(h1))], attempts, name);
  }

  lemma ResubmitPolls(c: Config, h: History, g: History, attempts: nat, name: string)
    requires Polling(h, g) && |h| < |g|
    ensures Polling(h, Resubmit(c, g, attempts, name).history)
  {
    hide Submit;
    SubmitAsks(c, g, name);
  }

  lemma HandledKeeps(c: Config, g: History, h: History, name: string, outcome: Outcome)
    requires Handled(c, g, h, name, outcome) && Sound(c, g)
    ensures DeletesOnly(g, h, {name}) && Sound(c, h) && Waits(h) == Waits(g) && LastPoll(h) == LastPoll(g)
    ensures LastPoll(g).None? ==> Resubmissions(h) == Resubmissions(g)
    ensures Askings(h) <= Askings(g) + 1
  {
    if outcome.Proceed? || outcome.Invalid? {
      hide SettledAs, Polls, TerminalPolls, Quiet, ResubmissionsOf, Genuine, Justified;
      var n := |h| - 1;
      assert h == h[..n] + [h[n]];
      assert h[n].Delete? ==> h[n].name == name;
      DeletesOnlySnoc(g, h[..n], {name}, h[n]);
      SoundSnoc(c, h[..n], h[n]);
    }
  }

  // ---------------------------------------------------------------- PollStep

  /** What one poll, answered `reply`, keeps, whatever else is answered. */
  ghost predicate PollKeeps(c: Config, h: History, attempts: nat, name: string, reply: Reply, p: Polled) {
    && DeletesOnly(h, p.history, {name})
    && attempts <= p.attempts <= MAX_ATTEMPTS && Resubmissions(p.history) == p.attempts && Waits(p.history) == Waits(h)
    && Sound(c, p.history)
    && (p.outcome.Proceed? ==>
          && AllSettled(p.history) == Added(AllSettled(h), p.settled, name)
          && SettledAs(p.history, GaveUp) == Added(SettledAs(h, GaveUp), p.gaveUp, name)
          && PollCounts(h, p.history, name, reply))
  }

  function Added(a: multiset<string>, one: bool, name: string): multiset<string> {
    if one then a + multiset{name} else a
  }

  /** The polls and the quiet spells of every stack, before and after the poll of `name`. */
  ghost predicate PollCounts(h: History, h': History, name: string, reply: Reply) {
    && (forall x | x != name ::
          && Polls(h', x) == Polls(h, x) && TerminalPolls(h', x) == TerminalPolls(h, x)
          && Quiet(h', x) == Quiet(h, x) && ResubmissionsOf(h', x) == ResubmissionsOf(h, x))
    && Polls(h', name) == Polls(h, name) + 1
    && TerminalPolls(h', name) == TerminalPolls(h, name) + (if IsTerminal(reply) then 1 else 0)
    && Quiet(h', name) == (if IsTerminal(reply) then 0 else Quiet(h, name) + 1)
    && 0 <= ResubmissionsOf(h', name) - ResubmissionsOf(h, name) <= Resubmissions(h') - Resubmissions(h)
    && TerminalPolls(h', name) - TerminalPolls(h, name)
         <= ResubmissionsOf(h', name) - ResubmissionsOf(h, name) + AllSettled(h')[name] - AllSettled(h)[name]
  }

  /** What a description alone settles. */
  predicate PollSettles(h: History, reply: Reply, v: Verdict) {
    match v
    case Gone => IsGone(reply)
    case Rejected => false
    case GaveUp => HasFailed(reply) && Resubmissions(h) == MAX_ATTEMPTS
  }

  /** A description of the stack, appended to the history. */
  lemma PollSnoc(c: Config, h: History, name: string, reply: Reply)
    ensures var g := h + [Poll(name, reply)];
            && Resubmissions(g) == Resubmissions(h) && Waits(g) == Waits(h)
            && (forall v :: SettledAs(g, v) == Added(SettledAs(h, v), PollSettles(h, reply, v), name))
            && (forall x :: ResubmissionsOf(g, x) == ResubmissionsOf(h, x))
            && (forall x :: Polls(g, x) == Polls(h, x) + if x == name then 1 else 0)
            && (forall x :: TerminalPolls(g, x) == TerminalPolls(h, x) + if x == name && IsTerminal(reply) then 1 else 0)
            && (forall x :: Quiet(g, x) == if x != name then Quiet(h, x) else if IsTerminal(reply) then 0 else Quiet(h, x) + 1)
            && LastPoll(g) == Some(Poll(name, reply))
            && (Sound(c, h) && reply == c.env.poll(h, name) ==> Sound(c, g))
  {
    hide Sound;
    PollIsSound(c, h, name, reply);
    PollSettled(h, name, reply);
    hide SettledAs;
    Snoc(h, Poll(name, reply));
  }

  lemma PollSettled(h: History, name: string, reply: Reply)
    ensures forall v :: SettledAs(h + [Poll(name, reply)], v) == Added(SettledAs(h, v), PollSettles(h, reply, v), name)
  {
    hide LastPoll, Resubmissions;
    Snoc(h, Poll(name, reply));
  }

  lemma PollIsSound(c: Config, h: History, name: string, reply: Reply)
    ensures Sound(c, h) && reply == c.env.poll(h, name) ==> Sound(c, h + [Poll(name, reply)])
  {
    if Sound(c, h) && reply == c.env.poll(h, name) {
      SoundSnoc(c, h, Poll(name, reply));
    }
  }

  /** A rejection, appended to the history. */
  lemma RejectionSnoc(h: History, e: Event)
    requires IsRejection(e)
    ensures var g := h + [e];
            && Resubmissions(g) == Resubmissions(h) && Waits(g) == Waits(h)
            && (forall v :: SettledAs(g, v) == Added(SettledAs(h, v), v.Rejected?, e.name))
            && AllSettled(g) == AllSettled(h) + multiset{e.name}
            && (forall x :: Polls(g, x) == Polls(h, x) && TerminalPolls(g, x) == TerminalPolls(h, x)
                            && ResubmissionsOf(g, x) == ResubmissionsOf(h, x))
            && (forall x :: Quiet(g, x) == if e.Delete? && e.name == x then 0 else Quiet(h, x))
  {
    RejectionSettles(h, e);
    RejectionCounts(h, e);
  }

  lemma RejectionSettles(h: History, e: Event)
    requires IsRejection(e)
    ensures var g := h + [e];
            && (forall v :: SettledAs(g, v) == Added(SettledAs(h, v), v.Rejected?, e.name))
            && AllSettled(g) == AllSettled(h) + multiset{e.name}
  {
    hide LastPoll, Resubmissions;
    Snoc(h, e);
    MoveOut(SettledAs(h, Rejected), SettledAs(h, Gone), SettledAs(h, GaveUp), e.name);
  }

  lemma RejectionCounts(h: History, e: Event)
    requires IsRejection(e)
    ensures var g := h + [e];
            && Resubmissions(g) == Resubmissions(h) && Waits(g) == Waits(h)
            && (forall x :: Polls(g, x) == Polls(h, x) && TerminalPolls(g, x) == TerminalPolls(h, x)
                            && ResubmissionsOf(g, x) == ResubmissionsOf(h, x))
            && (forall x :: Quiet(g, x) == if e.Delete? && e.name == x then 0 else Quiet(h, x))
  {
    hide LastPoll;
    Snoc(h, e);
  }

  lemma MoveOut(a: multiset<string>, b: multiset<string>, c: multiset<string>, name: string)
    ensures (a + multiset{name}) + b + c == a + b + c + multiset{name}
    ensures b + (a + multiset{name}) + c == b + a + c + multiset{name}
    ensures b + c + (a + multiset{name}) == b + c + a + multiset{name}
  {
  }

  /** A deletion asked for after a failed poll of the stack. */
  lemma ResubmittedSnoc(h: History, name: string, reply: Reply, e: Event)
    requires LastPoll(h) == Some(Poll(name, reply)) && HasFailed(reply) && Asks(e, name)
    ensures var g := h + [e];
            && Resubmissions(g) == Resubmissions(h) + 1 && Waits(g) == Waits(h)
            && (forall v :: SettledAs(g, v) == SettledAs(h, v))
            && (forall x :: ResubmissionsOf(g, x) == ResubmissionsOf(h, x) + if x == name then 1 else 0)
            && (forall x :: Polls(g, x) == Polls(h, x) && TerminalPolls(g, x) == TerminalPolls(h, x))
            && (forall x :: Quiet(g, x) == if e.Delete? && e.name == x then 0 else Quiet(h, x))
  {
    hide LastPoll;
    ResubmittedSettles(h, name, e);
    hide SettledAs;
    Snoc(h, e);
  }

  lemma ResubmittedSettles(h: History, name: string, e: Event)
    requires Asks(e, name)
    ensures forall v :: SettledAs(h + [e], v) == SettledAs(h, v)
  {
    hide LastPoll, Resubmissions;
    Snoc(h, e);
  }

  /** A history reached from `h` by a poll that settles nothing, and quiet events about the same stack. */
  ghost predicate AfterPoll(c: Config, h: History, g: History, name: string, reply: Reply) {
    && DeletesOnly(h, g, {name}) && Resubmissions(g) == Resubmissions(h) && Waits(g) == Waits(h)
    && (Sound(c, h) ==> Sound(c, g)) && LastPoll(g) == Some(Poll(name, reply))
    && (forall v :: SettledAs(g, v) == SettledAs(h, v))
    && (forall x :: ResubmissionsOf(g, x) == ResubmissionsOf(h, x))
    && (forall x :: Polls(g, x) == Polls(h, x) + if x == name then 1 else 0)
    && (forall x :: TerminalPolls(g, x) == TerminalPolls(h, x) + if x == name && IsTerminal(reply) then 1 else 0)
    && (forall x | x != name :: Quiet(g, x) == Quiet(h, x))
    && (IsTerminal(reply) ==> Quiet(g, name) == 0)
  }

  lemma QuietlyAfterPoll(c: Config, h: History, g: History, name: string, reply: Reply)
    requires Quietly(c, h + [Poll(name, reply)], g, name) && reply == c.env.poll(h, name)
    requires forall v :: !PollSettles(h, reply, v)
    ensures AfterPoll(c, h, g, name, reply)
  {
    hide SettledAs, Polls, TerminalPolls, Quiet, ResubmissionsOf, Resubmissions, Waits, Sound;
    PollSnoc(c, h, name, reply);
  }

  /** A poll that finds the stack gone, or failed with the budget spent, settles it. */
  lemma SettledKeeps(c: Config, h: History, attempts: nat, name: string, reply: Reply)
    requires attempts == Resubmissions(h) <= MAX_ATTEMPTS && Sound(c, h) && reply == c.env.poll(h, name)
    requires IsGone(reply) || (HasFailed(reply) && attempts == MAX_ATTEMPTS)
    ensures PollKeeps(c, h, attempts, name, reply, Polled(h + [Poll(name, reply)], attempts, true, HasFailed(reply), Proceed))
  {
    hide SettledAs, Polls, TerminalPolls, Quiet, ResubmissionsOf, Resubmissions, Waits, Sound;
    var h' := h + [Poll(name, reply)];
    PollSnoc(c, h, name, reply);
    if IsGone(reply) {
      MoveOut(SettledAs(h, Gone), SettledAs(h, Rejected), SettledAs(h, GaveUp), name);
    } else {
      MoveOut(SettledAs(h, GaveUp), SettledAs(h, Gone), SettledAs(h, Rejected), name);
    }
    assert AllSettled(h') == AllSettled(h) + multiset{name};
  }

  /** A rejection at the end of a poll settles the stack. */
  lemma RejectedKeeps(c: Config, h: History, g: History, attempts: nat, name: string, reply: Reply, e: Event)
    requires attempts == Resubmissions(h) <= MAX_ATTEMPTS && Sound(c, h)
    requires AfterPoll(c, h, g, name, reply)
    requires !IsTerminal(reply) ==> !e.Delete? && Quiet(g, name) == Quiet(h, name) + 1
    requires IsRejection(e) && e.name == name && Genuine(c, g + [e], |g|) && Justified(c, g + [e], |g|)
    ensures PollKeeps(c, h, attempts, name, reply, Polled(g + [e], attempts, true, false, Proceed))
  {
    hide SettledAs, Polls, TerminalPolls, Quiet, ResubmissionsOf, Resubmissions, Waits, Genuine, Justified;
    RejectionSnoc(g, e);
    SoundSnoc(c, g, e);
    assert AllSettled(g) == AllSettled(h);
    assert PollCounts(h, g + [e], name, reply);
  }

  /** Leaving the stack pending at the end of a poll. */
  lemma PendingKeeps(c: Config, h: History, g: History, attempts: nat, name: string, reply: Reply, outcome: Outcome)
    requires attempts == Resubmissions(h) <= MAX_ATTEMPTS && Sound(c, h)
    requires AfterPoll(c, h, g, name, reply)
    requires outcome.Proceed? ==> !IsTerminal(reply) && Quiet(g, name) == Quiet(h, name) + 1
    ensures PollKeeps(c, h, attempts, name, reply, Polled(g, attempts, false, false, outcome))
  {
    hide SettledAs, Polls, TerminalPolls, Quiet, ResubmissionsOf, Resubmissions, Waits, Sound;
    assert AllSettled(g) == AllSettled(h);
  }

  /** A completed resubmission at the end of a poll. */
  lemma ResubmittedKeeps(c: Config, h: History, g: History, attempts: nat, name: string, reply: Reply, e: Event)
    requires attempts == Resubmissions(h) < MAX_ATTEMPTS && Sound(c, h) && HasFailed(reply)
    requires AfterPoll(c, h, g, name, reply) && Asks(e, name)
    requires Genuine(c, g + [e], |g|) && Justified(c, g + [e], |g|)
    ensures PollKeeps(c, h, attempts, name, reply, Polled(g + [e], attempts + 1, false, false, Proceed))
  {
    hide SettledAs, Polls, TerminalPolls, Quiet, ResubmissionsOf, Resubmissions, Waits, Genuine, Justified, LastPoll;
    var h' := g + [e];
    ResubmittedSnoc(g, name, reply, e);
    SoundSnoc(c, g, e);
    assert AllSettled(h') == AllSettled(g) == AllSettled(h);
    assert PollCounts(h, h', name, reply);
  }

  lemma ResubmitKeeps(c: Config, h: History, g: History, attempts: nat, name: string, reply: Reply)
    requires attempts == Resubmissions(h) < MAX_ATTEMPTS && Sound(c, h) && HasFailed(reply)
    requires reply == c.env.poll(h, name) && Quietly(c, h + [Poll(name, reply)], g, name) && MayRequest(g, name)
    ensures PollKeeps(c, h, attempts, name, reply, Resubmit(c, g, attempts, name))
  {
    hide SettledAs, Polls, TerminalPolls, Quiet, ResubmissionsOf, Waits, Sound, Quietly, AfterPoll, PollKeeps, Submit, Genuine, Justified, LastPoll, Resubmissions;
    SubmitIsQuiet(c, h + [Poll(name, reply)], g, name);
    var s := Submit(c, g, name);
    if s.outcome.Proceed? || s.outcome.Invalid? {
      var n := |s.history| - 1;
      assert s.history == s.history[..n] + [s.history[n]];
      QuietlyAfterPoll(c, h, s.history[..n], name, reply);
      if s.outcome.Proceed? {
        ResubmittedKeeps(c, h, s.history[..n], attempts, name, reply, s.history[n]);
      } else {
        RejectedKeeps(c, h, s.history[..n], attempts, name, reply, s.history[n]);
      }
    } else {
      QuietlyAfterPoll(c, h, s.history, name, reply);
      PendingKeeps(c, h, s.history, attempts, name, reply, s.outcome);
    }
  }

  /** Asking for the analytics stack's network interfaces to be deleted, after a poll that settles nothing. */
  lemma CleanIsQuiet(c: Config, h: History, name: string, reply: Reply, answer: Answer)
    requires IsAnalyticsStack(c, name) && !answer.ValidationError?
    requires answer == c.env.cleanEnis(h + [Poll(name, reply)])
    ensures var h1 := h + [Poll(name, reply)];
            && Quietly(c, h1, h1 + [CleanEnis(name, answer)], name)
            && Quiet(h1 + [CleanEnis(name, answer)], name) == Quiet(h1, name)
            && (HasFailed(reply) ==> JustFailed(h1 + [CleanEnis(name, answer)], name))
  {
    hide Quietly;
    var h1 := h + [Poll(name, reply)];
    QuietlyRefl(c, h1, name);
    QuietlySnoc(c, h1, h1, name, CleanEnis(name, answer));
    NeutralCounts(h1, CleanEnis(name, answer));
  }

  lemma CleanKeeps(c: Config, h: History, attempts: nat, name: string, reply: Reply, answer: Answer)
    requires attempts == Resubmissions(h) <= MAX_ATTEMPTS && Sound(c, h) && reply == c.env.poll(h, name)
    requires forall v :: !PollSettles(h, reply, v)
    requires IsAnalyticsStack(c, name) && answer == c.env.cleanEnis(h + [Poll(name, reply)]) && !answer.Accepted?
    ensures var g := h + [Poll(name, reply)] + [CleanEnis(name, answer)];
            PollKeeps(c, h, attempts, name, reply,
                      if answer.ValidationError? then Polled(g, attempts, true, false, Proceed)
                      else Polled(g, attempts, false, false, Raised))
  {
    hide SettledAs, Polls, TerminalPolls, Quiet, ResubmissionsOf, Resubmissions, Waits, AfterPoll, PollKeeps, Quietly;
    var h1 := h + [Poll(name, reply)];
    PollSnoc(c, h, name, reply);
    if answer.ValidationError? {
      QuietlyRefl(c, h1, name);
      QuietlyAfterPoll(c, h, h1, name, reply);
      RejectedKeeps(c, h, h1, attempts, name, reply, CleanEnis(name, answer));
    } else {
      CleanIsQuiet(c, h, name, reply, answer);
      QuietlyAfterPoll(c, h, h1 + [CleanEnis(name, answer)], name, reply);
      PendingKeeps(c, h, h1 + [CleanEnis(name, answer)], attempts, name, reply, Raised);
    }
  }

  /** One poll of one stack keeps the budget, the reasons and the counts, whatever the environment answers. */
  lemma PollStepKeeps(c: Config, h: History, attempts: nat, name: string)
    requires attempts == Resubmissions(h) <= MAX_ATTEMPTS && Sound(c, h)
    ensures PollKeeps(c, h, attempts, name, c.env.poll(h, name), PollStep(c, h, attempts, name))
  {
    hide SettledAs, Polls, TerminalPolls, Quiet, ResubmissionsOf, Resubmissions, Waits, Sound, PollKeeps, AfterPoll, Quietly;
    var reply := c.env.poll(h, name);
    var h1 := h + [Poll(name, reply)];
    if reply.OtherError? {
      QuietlyRefl(c, h1, name);
      QuietlyAfterPoll(c, h, h1, name, reply);
      PendingKeeps(c, h, h1, attempts, name, reply, Raised);
    } else if IsGone(reply) || (HasFailed(reply) && attempts == MAX_ATTEMPTS) {
      SettledKeeps(c, h, attempts, name, reply);
    } else {
      StillThereKeeps(c, h, attempts, name, reply);
    }
  }

  lemma MayRetry(c: Config, h: History, g: History, name: string, reply: Reply)
    requires Quietly(c, h + [Poll(name, reply)], g, name) && HasFailed(reply) && Resubmissions(h) < MAX_ATTEMPTS
    requires g == h + [Poll(name, reply)] || JustFailed(g, name)
    ensures MayRequest(g, name)
  {
    PollSnoc(c, h, name, reply);
    hide SettledAs, Polls, TerminalPolls, Quiet, ResubmissionsOf, Resubmissions, Waits, Sound, LastPoll;
    assert (h + [Poll(name, reply)])[|h + [Poll(name, reply)]| - 1] == Poll(name, reply);
  }

  lemma StillThereKeeps(c: Config, h: History, attempts: nat, name: string, reply: Reply)
    requires attempts == Resubmissions(h) <= MAX_ATTEMPTS && Sound(c, h)
    requires reply == c.env.poll(h, name) && !reply.OtherError? && !IsGone(reply)
    requires HasFailed(reply) ==> attempts < MAX_ATTEMPTS
    ensures PollKeeps(c, h, attempts, name, c.env.poll(h, name), PollStep(c, h, attempts, name))
  {
    hide SettledAs, Polls, TerminalPolls, Quiet, ResubmissionsOf, Resubmissions, Waits, Sound, PollKeeps, AfterPoll, Quietly;
    var h1 := h + [Poll(name, reply)];
    var answer := c.env.cleanEnis(h1);
    var g := if IsAnalyticsStack(c, name) then h1 + [CleanEnis(name, answer)] else h1;
    PollSnoc(c, h, name, reply);
    if IsAnalyticsStack(c, name) && !answer.Accepted? {
      CleanKeeps(c, h, attempts, name, reply, answer);
    } else {
      if IsAnalyticsStack(c, name) {
        CleanIsQuiet(c, h, name, reply, answer);
      } else {
        QuietlyRefl(c, h1, name);
      }
      if HasFailed(reply) {
        MayRetry(c, h, g, name, reply);
        ResubmitKeeps(c, h, g, attempts, name, reply);
      } else {
        QuietlyAfterPoll(c, h, g, name, reply);
        PendingKeeps(c, h, g, attempts, name, reply, Proceed);
      }
    }
  }
}
