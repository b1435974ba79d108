/** Finding the stacks of the cluster: what the search describes, and the stacks it finds. */
module TeardownSearch {
  import opened TeardownModel
  import opened TeardownSteps
  import opened TeardownPolling
  import opened TeardownBudget

  /** The search begins once the instances are found, and describes the stacks of all pages. */
  function BeforeSearch(c: Config): History {
    [Stage(FIND_INSTANCES, c.env.stage([], FIND_INSTANCES))]
  }

  /** The descriptions made by the search. */
  function Search(c: Config, pages: seq<seq<string>>): History {
    ListingExtends(c, BeforeSearch(c), Flat(pages));
    Listing(c, BeforeSearch(c), Flat(pages))[1..]
  }

  /** The instances and the stacks are found without an error. */
  ghost predicate Succeeds(c: Config, pages: seq<seq<string>>) {
    c.env.stage([], FIND_INSTANCES) && Listable(c, BeforeSearch(c), Flat(pages))
  }

  lemma {:induction false} ListingExtends(c: Config, h: History, arns: seq<string>)
    ensures |Listing(c, h, arns)| == |h| + |arns| && h <= Listing(c, h, arns)
  {
    if arns != [] {
      ListingExtends(c, h, arns[..|arns| - 1]);
    }
  }

  lemma ListingSnoc(c: Config, h: History, arns: seq<string>, arn: string)
    ensures var before := Listing(c, h, arns);
            Listing(c, h, arns + [arn]) == before + [Listed(arn, c.env.describe(before, arn))]
    ensures Listable(c, h, arns + [arn])
       <==> Listable(c, h, arns) && !c.env.describe(Listing(c, h, arns), arn).OtherError?
  {
    var more := arns + [arn];
    assert more[..|arns|] == arns;
    forall k | 0 <= k < |arns| ensures more[..k] == arns[..k] && more[k] == arns[k] {
    }
  }

  lemma ListableBefore(c: Config, h: History, arns: seq<string>, more: seq<string>)
    requires Listable(c, h, arns + more)
    ensures Listable(c, h, arns)
  {
    forall k | 0 <= k < |arns| ensures !c.env.describe(Listing(c, h, arns[..k]), arns[k]).OtherError? {
      assert (arns + more)[..k] == arns[..k] && (arns + more)[k] == arns[k];
    }
  }

  lemma NotListable(c: Config, h: History, arns: seq<string>, more: seq<string>)
    requires !Listable(c, h, arns) && arns <= more
    ensures !Listable(c, h, more)
  {
    if Listable(c, h, more) {
      assert more == arns + more[|arns|..];
      ListableBefore(c, h, arns, more[|arns|..]);
    }
  }

  lemma {:induction false} FlatPrefix(pages: seq<seq<string>>, p: nat)
    requires p <= |pages|
    ensures Flat(pages[..p]) <= Flat(pages)
    decreases |pages|
  {
    if p < |pages| {
      var before := pages[..|pages| - 1];
      assert before[..p] == pages[..p];
      FlatPrefix(before, p);
    } else {
      assert pages[..p] == pages;
    }
  }

  /** The search has described `arns`, from `h` on, without an error, and found `f`. */
  ghost predicate Searched(c: Config, h: History, h': History, arns: seq<string>, f: Stacks) {
    h' == Listing(c, h, arns) && Listable(c, h, arns) && |h| <= |h'| && f == StacksOf(c, h'[|h|..])
  }

  lemma SearchBegins(c: Config, h: History)
    ensures OnlyNeutral(c, h, h) && Searched(c, h, h, [], Stacks([], [], []))
  {
  }

  lemma NeutralKeepsBudget(c: Config, h: History, h': History, attempts: nat)
    requires OnlyNeutral(c, h, h') && BudgetKept(c, h, attempts)
    ensures BudgetKept(c, h', attempts)
  {
  }

  /** The lists with one more stack filed under its kind. */
  function Filed(c: Config, f: Stacks, reply: Reply): Stacks {
    if !reply.Found? then f
    else
      match KindOf(c, reply.stackName)
      case Ordinary => f.(ordinary := f.ordinary + [reply.stackName])
      case IdentityProvider => f.(identity := f.identity + [reply.stackName])
      case Cluster => f.(cluster := f.cluster + [reply.stackName])
      case Ignored => f
  }

  lemma SearchedNext(c: Config, h: History, h': History, arns: seq<string>, f: Stacks, arn: string)
    requires Searched(c, h, h', arns, f)
    ensures var reply := c.env.describe(h', arn);
            if reply.OtherError? then !Listable(c, h, arns + [arn])
            else Searched(c, h, h' + [Listed(arn, reply)], arns + [arn], Filed(c, f, reply))
  {
    hide KindOf, Listing, Listable, FoundOf;
    var e := Listed(arn, c.env.describe(h', arn));
    ListingSnoc(c, h, arns, arn);
    FoundSnoc(c, h'[|h|..], e);
    assert (h' + [e])[|h|..] == h'[|h|..] + [e];
  }

  /** A description appended to a listing adds the stack to the list of its kind. */
  lemma FoundSnoc(c: Config, listing: History, e: Event)
    ensures forall kind ::
              FoundOf(c, listing + [e], kind) ==
              if e.Listed? && e.reply.Found? && KindOf(c, e.reply.stackName) == kind
              then FoundOf(c, listing, kind) + [e.reply.stackName] else FoundOf(c, listing, kind)
  {
    Snoc(listing, e);
  }

  lemma {:induction false} FoundHaveKind(c: Config, listing: History, kind: Kind)
    ensures forall name | name in FoundOf(c, listing, kind) :: KindOf(c, name) == kind
  {
    if listing != [] {
      FoundHaveKind(c, listing[..|listing| - 1], kind);
    }
  }

  /** Nothing but neutral events was added, and no deletion. */
  ghost predicate OnlyNeutral(c: Config, h: History, h': History) {
    DeletesOnly(h, h', {}) && SameCounts(h, h') && (Sound(c, h) ==> Sound(c, h'))
  }

  lemma NeutralSnoc(c: Config, h: History, h': History, e: Event)
    requires OnlyNeutral(c, h, h') && (e.Listed? || e.Stage?) && Genuine(c, h' + [e], |h'|)
    ensures OnlyNeutral(c, h, h' + [e])
  {
    hide SettledAs, Polls, TerminalPolls, Quiet, ResubmissionsOf, Resubmissions, Waits, Genuine;
    NeutralCounts(h', e);
    if Sound(c, h') {
      SoundSnoc(c, h', e);
    }
  }

  lemma NeutralThen(c: Config, g: History, h: History, h': History)
    requires OnlyNeutral(c, g, h) && OnlyNeutral(c, h, h')
    ensures OnlyNeutral(c, g, h')
  {
    hide Sound;
    assert forall i | |g| <= i < |h| :: h'[i] == h[i];
  }

  /** After a stage nothing has been polled yet. */
  lemma StageBegins(h: History, what: string, proceeds: bool)
    ensures LastPoll(h + [Stage(what, proceeds)]).None?
  {
    Snoc(h, Stage(what, proceeds));
  }

  lemma NeutralCosts(c: Config, h: History, h': History, attempts: nat, n: nat, k: nat, b: nat, m: nat)
    requires OnlyNeutral(c, h, h') && RunCosts(h, attempts, n, k, b, m)
    ensures RunCosts(h', attempts, n, k, b, m)
  {
  }

  lemma OneMoreAsked(h: History, h': History, attempts: nat, n: nat, k: nat, b: nat, m: nat)
    requires RunCosts(h, attempts, n, k, b, m) && Askings(h') <= Askings(h) + 1 && Waits(h') == Waits(h)
    ensures RunCosts(h', attempts, n + 1, k, b, m)
  {
  }

  /** A phase begins with a stage. */
  lemma RequestsBegin(c: Config, h: History, g: History, attempts: nat, stacks: seq<string>)
    requires OnlyNeutral(c, h, g) && BudgetKept(c, h, attempts) && LastPoll(g).None?
    requires forall k | |h| <= k < |g| :: !g[k].Poll?
    ensures Requested(c, h, g, stacks, 0)
  {
  }
}
