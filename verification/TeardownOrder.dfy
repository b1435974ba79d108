/** The order of a teardown, read off its history. */
module TeardownOrder {
  import opened TeardownModel
  import opened TeardownSteps
  import opened TeardownPolling
  import opened TeardownBudget
  import opened TeardownNames
  import opened TeardownSearch

  // ---------------------------------------------------------------- stacks that left, stacks asked for

  /** What makes the loop drop a stack without giving it up. */
  predicate Leaves(e: Event, name: string) {
    || (e.Poll? && e.name == name && IsGone(e.reply))
    || (IsRejection(e) && e.name == name)
  }

  ghost predicate LeftBefore(h: History, i: nat, name: string) {
    exists j :: 0 <= j < i && j < |h| && Leaves(h[j], name)
  }

  ghost predicate AllLeftBefore(h: History, i: nat, names: seq<string>) {
    forall name | name in names :: LeftBefore(h, i, name)
  }

  /** `invoke` got past the stage before position `i`. */
  ghost predicate Passed(h: History, i: nat, what: string) {
    exists j :: 0 <= j < i && j < |h| && h[j] == Stage(what, true)
  }

  ghost predicate EverAsked(h: History, name: string) {
    exists j :: 0 <= j < |h| && Asks(h[j], name)
  }

  /** Every stack of a phase was asked to be deleted, or was not there, and left. */
  ghost predicate PhaseDone(h: History, names: seq<string>) {
    AllLeftBefore(h, |h|, names) && forall x | x in names :: EverAsked(h, x)
  }

  lemma PhaseDoneLater(h: History, h': History, names: seq<string>)
    requires h <= h' && PhaseDone(h, names)
    ensures PhaseDone(h', names)
  {
    LeftLater(h, h', |h|, |h'|, names);
    forall x | x in names ensures EverAsked(h', x) {
      var j :| 0 <= j < |h| && Asks(h[j], x);
      assert Asks(h'[j], x);
    }
  }

  lemma AskedIsEver(h: History, from: nat, name: string)
    requires Asked(h, from, name)
    ensures EverAsked(h, name)
  {
  }

  lemma PhaseIsDone(h: History, h': History, names: seq<string>)
    requires h <= h' && AllLeftBefore(h', |h'|, names) && forall x | x in names :: Asked(h', |h|, x)
    ensures PhaseDone(h', names)
  {
    forall x | x in names ensures EverAsked(h', x) {
      assert Asked(h', |h|, x);
    }
  }

  lemma LeftLater(h: History, h': History, i: nat, j: nat, names: seq<string>)
    requires h <= h' && i <= j && i <= |h| && AllLeftBefore(h, i, names)
    ensures AllLeftBefore(h', j, names)
  {
    forall name | name in names ensures LeftBefore(h', j, name) {
      var k :| 0 <= k < i && k < |h| && Leaves(h[k], name);
      assert Leaves(h'[k], name);
    }
  }

  lemma PassedLater(h: History, h': History, i: nat, j: nat, what: string)
    requires h <= h' && i <= j && i <= |h| && Passed(h, i, what)
    ensures Passed(h', j, what)
  {
    var k :| 0 <= k < i && k < |h| && h[k] == Stage(what, true);
    assert h'[k] == h[k];
  }

  // ---------------------------------------------------------------- order

  /** The stack may be deleted at `i`: ordinary stacks come first, then those of the identity provider, then the
      cluster stacks, then, if that is wanted and confirmed, the bootstrap stack; and a phase only begins once every
      stack of the earlier ones left. */
  ghost predicate Due(c: Config, h: History, i: nat, f: Stacks, withBootstrap: bool, name: string) {
    && Passed(h, i, CONFIRM)
    && (|| name in f.ordinary
        || (name in f.identity && AllLeftBefore(h, i, f.ordinary))
        || (name in f.cluster && AllLeftBefore(h, i, f.ordinary) && AllLeftBefore(h, i, f.identity))
        || (withBootstrap && name == BootstrapStackName(c) && Passed(h, i, CONFIRM_BOOTSTRAP)
            && AllLeftBefore(h, i, f.ordinary) && AllLeftBefore(h, i, f.identity) && AllLeftBefore(h, i, f.cluster)))
  }

  ghost predicate Ordered(c: Config, h: History, f: Stacks, withBootstrap: bool) {
    forall i | 0 <= i < |h| && h[i].Delete? :: Due(c, h, i, f, withBootstrap, h[i].name)
  }

  lemma DueLater(c: Config, h: History, h': History, i: nat, j: nat, f: Stacks, withBootstrap: bool, name: string)
    requires h <= h' && i <= j && i <= |h| && Due(c, h, i, f, withBootstrap, name)
    ensures Due(c, h', j, f, withBootstrap, name)
  {
    hide AllLeftBefore, Passed;
    PassedLater(h, h', i, j, CONFIRM);
    if Passed(h, i, CONFIRM_BOOTSTRAP) {
      PassedLater(h, h', i, j, CONFIRM_BOOTSTRAP);
    }
    if AllLeftBefore(h, i, f.ordinary) {
      LeftLater(h, h', i, j, f.ordinary);
    }
    if AllLeftBefore(h, i, f.identity) {
      LeftLater(h, h', i, j, f.identity);
    }
    if AllLeftBefore(h, i, f.cluster) {
      LeftLater(h, h', i, j, f.cluster);
    }
  }

  /** Extending an ordered history by deletions that are due keeps it ordered. */
  lemma PhaseKeepsOrder(c: Config, h: History, h': History, names: set<string>, f: Stacks, withBootstrap: bool)
    requires Ordered(c, h, f, withBootstrap) && DeletesOnly(h, h', names)
    requires forall x | x in names :: Due(c, h, |h|, f, withBootstrap, x)
    ensures Ordered(c, h', f, withBootstrap)
  {
    hide Due;
    forall i | 0 <= i < |h'| && h'[i].Delete? ensures Due(c, h', i, f, withBootstrap, h'[i].name) {
      if i < |h| {
        assert h'[i] == h[i];
        DueLater(c, h, h', i, i, f, withBootstrap, h[i].name);
      } else {
        DueLater(c, h, h', |h|, i, f, withBootstrap, h'[i].name);
      }
    }
  }

  lemma OrdinaryIsDue(c: Config, h: History, f: Stacks, withBootstrap: bool)
    requires Passed(h, |h|, CONFIRM)
    ensures forall x | x in NamesOf(f.ordinary) :: Due(c, h, |h|, f, withBootstrap, x)
  {
  }

  lemma IdentityIsDue(c: Config, h: History, f: Stacks, withBootstrap: bool)
    requires Passed(h, |h|, CONFIRM) && PhaseDone(h, f.ordinary)
    ensures forall x | x in NamesOf(f.identity) :: Due(c, h, |h|, f, withBootstrap, x)
  {
  }

  lemma ClusterIsDue(c: Config, h: History, f: Stacks, withBootstrap: bool)
    requires Passed(h, |h|, CONFIRM) && PhaseDone(h, f.ordinary) && PhaseDone(h, f.identity)
    ensures forall x | x in NamesOf(f.cluster) :: Due(c, h, |h|, f, withBootstrap, x)
  {
  }

  lemma BootstrapIsDue(c: Config, h: History, f: Stacks)
    requires Passed(h, |h|, CONFIRM) && h != [] && h[|h| - 1] == Stage(CONFIRM_BOOTSTRAP, true)
    requires PhaseDone(h, f.ordinary) && PhaseDone(h, f.identity) && PhaseDone(h, f.cluster)
    ensures Due(c, h, |h|, f, true, BootstrapStackName(c))
  {
  }

  // ---------------------------------------------------------------- from counts to events

  lemma {:induction false} SettledGrows(g: History, h: History, v: Verdict)
    requires g <= h
    ensures SettledAs(g, v) <= SettledAs(h, v)
    decreases |h|
  {
    if |g| < |h| {
      SettledGrows(g, h[..|h| - 1], v);
    } else {
      assert g == h;
    }
  }

  lemma SettlesAtPrefix(h: History, n: nat, i: nat, v: Verdict)
    requires i < n <= |h|
    ensures SettlesAt(h[..n], i, v) <==> SettlesAt(h, i, v)
  {
    assert h[..n][..i] == h[..i];
  }

  /** A stack counted more often than at `g` was settled since. */
  lemma {:induction false} SettledSince(g: History, h: History, v: Verdict, name: string)
    requires g <= h && SettledAs(h, v)[name] > SettledAs(g, v)[name]
    ensures exists j :: |g| <= j < |h| && SettlesAt(h, j, v) && h[j].name == name
    decreases |h|
  {
    assert |g| == |h| ==> g == h;
    var n := |h| - 1;
    if !(SettlesAt(h, n, v) && h[n].name == name) {
      SettledSince(g, h[..n], v, name);
      var j :| |g| <= j < n && SettlesAt(h[..n], j, v) && h[..n][j].name == name;
      SettlesAtPrefix(h, n, j, v);
      assert SettlesAt(h, j, v) && h[j].name == name;
    }
  }

  /** No answer since `g` settled a stack for the given reason. */
  ghost predicate NoneSettled(g: History, h: History, v: Verdict) {
    forall j | |g| <= j < |h| :: !SettlesAt(h, j, v)
  }

  lemma NoneSettledSnoc(g: History, h: History, v: Verdict)
    requires g <= h && |g| < |h|
    ensures NoneSettled(g, h, v) <==> NoneSettled(g, h[..|h| - 1], v) && !SettlesAt(h, |h| - 1, v)
  {
    hide SettlesAt;
    var n := |h| - 1;
    forall j | |g| <= j < n ensures SettlesAt(h[..n], j, v) <==> SettlesAt(h, j, v) {
      SettlesAtPrefix(h, n, j, v);
    }
  }

  lemma {:induction false} NoneSettledCount(g: History, h: History, v: Verdict)
    requires g <= h
    ensures |SettledAs(h, v)| >= |SettledAs(g, v)|
    ensures |SettledAs(h, v)| == |SettledAs(g, v)| <==> NoneSettled(g, h, v)
    decreases |h|
  {
    if |g| < |h| {
      hide SettlesAt, NoneSettled;
      var n := |h| - 1;
      NoneSettledCount(g, h[..n], v);
      NoneSettledSnoc(g, h, v);
    } else {
      assert g == h;
    }
  }

  /** When every listed stack is settled and none given up, each of them left. */
  lemma EveryoneLeft(g: History, h: History, names: seq<string>)
    requires g <= h && AllSettled(h) == AllSettled(g) + multiset(names) && GivenUp(h) == GivenUp(g)
    ensures AllLeftBefore(h, |h|, names)
  {
    SettledGrows(g, h, GaveUp);
    SameCardinality(SettledAs(g, GaveUp), SettledAs(h, GaveUp));
    forall name | name in names ensures LeftBefore(h, |h|, name) {
      assert multiset(names)[name] > 0;
      assert AllSettled(h)[name] > AllSettled(g)[name];
      var v := if SettledAs(h, Gone)[name] > SettledAs(g, Gone)[name] then Gone else Rejected;
      SettledSince(g, h, v, name);
      var j :| |g| <= j < |h| && SettlesAt(h, j, v) && h[j].name == name;
      assert Leaves(h[j], name);
    }
  }

  lemma SameCardinality(a: multiset<string>, b: multiset<string>)
    requires a <= b && |a| == |b|
    ensures a == b
  {
    assert |b - a| == 0;
    assert b == a + (b - a);
  }

  /** A history in which the stacks given, and no others, were settled: they were seen gone, one poll for each, if
      and only if no poll saw a failed deletion with the budget spent and no request was answered with a
      ValidationError. */
  lemma GoneExactlyWhen(g: History, h: History, names: seq<string>)
    requires g <= h && AllSettled(h) == AllSettled(g) + multiset(names)
    ensures SettledAs(h, Gone) == SettledAs(g, Gone) + multiset(names)
       <==> NoneSettled(g, h, GaveUp) && NoneSettled(g, h, Rejected)
  {
    hide SettledAs;
    SettledGrows(g, h, Gone);
    SettledGrows(g, h, Rejected);
    SettledGrows(g, h, GaveUp);
    NoneSettledCount(g, h, GaveUp);
    NoneSettledCount(g, h, Rejected);
    Parts(SettledAs(g, Gone), SettledAs(g, Rejected), SettledAs(g, GaveUp),
          SettledAs(h, Gone), SettledAs(h, Rejected), SettledAs(h, GaveUp), multiset(names));
  }

  lemma Parts(a: multiset<string>, b: multiset<string>, c: multiset<string>,
              a': multiset<string>, b': multiset<string>, c': multiset<string>, n: multiset<string>)
    requires a <= a' && b <= b' && c <= c' && a' + b' + c' == a + b + c + n
    ensures a' == a + n <==> |c'| == |c| && |b'| == |b|
  {
    assert |a' + b' + c'| == |a'| + |b'| + |c'|;
    assert |a + b + c + n| == |a| + |b| + |c| + |n|;
    if a' == a + n {
      assert |a'| == |a| + |n|;
      assert |b| <= |b'| && |c| <= |c'| by {
        assert b' == b + (b' - b) && c' == c + (c' - c);
      }
    }
    if |c'| == |c| && |b'| == |b| {
      SameCardinality(b, b');
      SameCardinality(c, c');
      forall x ensures a'[x] == (a + n)[x] {
        assert (a' + b' + c')[x] == (a + b + c + n)[x];
      }
    }
  }

  // ---------------------------------------------------------------- what the environment answered

  /** The stack is not there, or deleted. */
  predicate SaysGone(reply: Reply) {
    reply.NoSuchStack? || (reply.Found? && reply.status == "DELETE_COMPLETE")
  }

  /** Before position `i` the environment described the stack as gone. */
  ghost predicate ObservedGone(c: Config, h: History, i: nat, name: string) {
    exists j :: 0 <= j < i && j < |h| && h[j].Poll? && h[j].name == name && SaysGone(c.env.poll(h[..j], name))
  }

  /** At `j` the environment answered a request made for the stack with a ValidationError. */
  ghost predicate RejectedAt(c: Config, h: History, j: nat, name: string)
    requires j < |h|
  {
    match h[j]
    case Unprotect(n, _) => n == name && c.env.unprotect(h[..j], name).ValidationError?
    case Delete(n, _) => n == name && c.env.delete(h[..j], name).ValidationError?
    case CleanEnis(n, _) => n == name && c.env.cleanEnis(h[..j]).ValidationError?
    case _ => false
  }

  ghost predicate WasRejected(c: Config, h: History, i: nat, name: string) {
    exists j :: 0 <= j < i && j < |h| && RejectedAt(c, h, j, name)
  }

  ghost predicate AllGone(c: Config, h: History, i: nat, names: seq<string>) {
    forall name | name in names :: ObservedGone(c, h, i, name) || WasRejected(c, h, i, name)
  }

  /** In a sound history a stack that left was observed gone, or a request made for it was rejected. */
  lemma LeftMeansGone(c: Config, h: History, i: nat, names: seq<string>)
    requires Sound(c, h) && AllLeftBefore(h, i, names)
    ensures AllGone(c, h, i, names)
  {
    forall name | name in names ensures ObservedGone(c, h, i, name) || WasRejected(c, h, i, name) {
      var j :| 0 <= j < i && j < |h| && Leaves(h[j], name);
      assert Genuine(c, h, j);
      assert h[j].Poll? || RejectedAt(c, h, j, name);
    }
  }

  /** A run only ends early for a reason: the last answer stops it, or a stack was given up. */
  ghost predicate Explained(h: History, outcome: Outcome) {
    || outcome.Proceed?
    || (h != [] && Stops(h[|h| - 1], outcome))
    || (outcome.Exit? && exists j :: 0 <= j < |h| && SettlesAt(h, j, GaveUp))
  }

  // ---------------------------------------------------------------- main result

  /** The deletion at `i` is of a stack that was found, or of the bootstrap stack; it was confirmed; and every stack
      of an earlier phase had been observed gone, or a request made for it had been rejected. */
  ghost predicate InOrderAt(c: Config, h: History, i: nat, f: Stacks, withBootstrap: bool)
    requires i < |h| && h[i].Delete?
  {
    var name := h[i].name;
    && Passed(h, i, CONFIRM)
    && (name in f.ordinary || name in f.identity || name in f.cluster || name == c.clusterName + "-bootstrap")
    && (IsIdentityProvider(c, name) ==> AllGone(c, h, i, f.ordinary))
    && (IsCluster(c, name) ==> AllGone(c, h, i, f.ordinary) && AllGone(c, h, i, f.identity))
    && (name == c.clusterName + "-bootstrap" ==>
          && withBootstrap && Passed(h, i, CONFIRM_BOOTSTRAP)
          && AllGone(c, h, i, f.ordinary) && AllGone(c, h, i, f.identity) && AllGone(c, h, i, f.cluster))
  }

  ghost predicate InOrder(c: Config, h: History, f: Stacks, withBootstrap: bool) {
    forall i | 0 <= i < |h| && h[i].Delete? :: InOrderAt(c, h, i, f, withBootstrap)
  }

  /** A sound history in which each deletion was due is in order, going by what the environment answered. */
  lemma TeardownIsOrdered(c: Config, h: History, listing: History, withBootstrap: bool)
    requires Sound(c, h) && Ordered(c, h, StacksOf(c, listing), withBootstrap)
    ensures InOrder(c, h, StacksOf(c, listing), withBootstrap)
  {
    hide Sound, AllLeftBefore, AllGone, Passed, IsCluster, IsIdentityProvider, IsOrdinary, FoundOf;
    var f := StacksOf(c, listing);
    FoundHaveKind(c, listing, Ordinary);
    FoundHaveKind(c, listing, IdentityProvider);
    FoundHaveKind(c, listing, Cluster);
    forall i | 0 <= i < |h| && h[i].Delete? ensures InOrderAt(c, h, i, f, withBootstrap) {
      KindIs(c, h[i].name);
      assert Due(c, h, i, f, withBootstrap, h[i].name);
      if AllLeftBefore(h, i, f.ordinary) {
        LeftMeansGone(c, h, i, f.ordinary);
      }
      if AllLeftBefore(h, i, f.identity) {
        LeftMeansGone(c, h, i, f.identity);
      }
      if AllLeftBefore(h, i, f.cluster) {
        LeftMeansGone(c, h, i, f.cluster);
      }
    }
  }

  lemma NothingDeleted(c: Config, h: History, listing: History, withBootstrap: bool)
    requires forall i | 0 <= i < |h| :: !h[i].Delete?
    ensures Ordered(c, h, StacksOf(c, listing), withBootstrap) && InOrder(c, h, StacksOf(c, listing), withBootstrap)
  {
  }

  /** A run that has only searched so far. */
  lemma NeutralRun(c: Config, h: History, listing: History, f: Stacks, withBootstrap: bool, b: nat, m: nat)
    requires OnlyNeutral(c, [], h)
    ensures Ordered(c, h, StacksOf(c, listing), withBootstrap) && InOrder(c, h, StacksOf(c, listing), withBootstrap)
    ensures forall i | 0 <= i < |h| :: !h[i].Delete?
    ensures WithinCosts(h, 0, f, b, m) && RunCosts(h, 0, 0, 0, b, Multiplicity(f, m))
  {
    hide WithinCosts, RunCosts, Sound, Ordered, InOrder;
    NothingDeleted(c, h, listing, withBootstrap);
    NothingSpent(h, f, b, m);
  }

  /** Every stack found was asked to be deleted, or was not there when it was to be; and it was observed gone, or a
      request made for it was rejected. */
  ghost predicate AllDeleted(c: Config, h: History, f: Stacks) {
    forall x | x in f.ordinary + f.identity + f.cluster ::
      EverAsked(h, x) && (ObservedGone(c, h, |h|, x) || WasRejected(c, h, |h|, x))
  }

  lemma PhasesDeleteAll(c: Config, h: History, f: Stacks)
    requires Sound(c, h) && PhaseDone(h, f.ordinary) && PhaseDone(h, f.identity) && PhaseDone(h, f.cluster)
    ensures AllDeleted(c, h, f)
  {
    LeftMeansGone(c, h, |h|, f.ordinary);
    LeftMeansGone(c, h, |h|, f.identity);
    LeftMeansGone(c, h, |h|, f.cluster);
  }

  // ---------------------------------------------------------------- success without deletion

  /** A stack whose deletion failed and whose new request is answered with a ValidationError leaves the list without
      being given up, at no cost to the budget, and without being seen gone: the loop takes the error for that. */
  lemma RejectedRequestPassesForGone(c: Config, h: History, attempts: nat, name: string)
    requires HasFailed(c.env.poll(h, name)) && attempts == Resubmissions(h) < MAX_ATTEMPTS && !IsAnalyticsStack(c, name)
    requires var s := Submit(c, h + [Poll(name, c.env.poll(h, name))], name); s.outcome.Invalid?
    ensures var p := PollStep(c, h, attempts, name);
            && p.settled && p.outcome.Proceed? && !p.gaveUp && p.attempts == attempts
            && SettledAs(p.history, GaveUp) == SettledAs(h, GaveUp) && SettledAs(p.history, Gone) == SettledAs(h, Gone)
  {
    hide SettledAs, Polls, TerminalPolls, Quiet, ResubmissionsOf, Resubmissions, Waits, Sound, Genuine, Justified, Submit;
    var h1 := h + [Poll(name, c.env.poll(h, name))];
    var s := Submit(c, h1, name);
    PollSnoc(c, h, name, c.env.poll(h, name));
    QuietlyRefl(c, h1, name);
    MayRetry(c, h, h1, name, c.env.poll(h, name));
    SubmitIsQuiet(c, h1, h1, name);
    var n := |s.history| - 1;
    assert s.history == s.history[..n] + [s.history[n]];
    RejectionSnoc(s.history[..n], s.history[n]);
  }

  /** An environment whose one stack fails to delete, and rejects the second request. */
  const STUBBORN := Environment(
    (h: History, name: string) => Found(name, DELETE_FAILED, false),
    (h: History, name: string) => Found(name, DELETE_FAILED, false),
    (h: History, name: string) => true,
    (h: History, name: string) => Accepted,
    (h: History, name: string) => ValidationError,
    (h: History) => Accepted,
    (h: History, what: string) => true)

  const STUBBORN_CLUSTER := Config("c", true, [], STUBBORN)

  lemma StubbornStackPassesForGone()
    ensures var p := PollStep(STUBBORN_CLUSTER, [], 0, "c-app");
            && p.settled && p.outcome.Proceed? && !p.gaveUp && p.attempts == 0
            && SettledAs(p.history, GaveUp) == multiset{} && SettledAs(p.history, Gone) == multiset{}
  {
    assert |"c" + "-analytics"| != |"c-app"|;
    RejectedRequestPassesForGone(STUBBORN_CLUSTER, [], 0, "c-app");
  }
}
