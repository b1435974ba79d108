/** Tearing down a cluster: what the program asks of the cloud, what it is answered, and the history of both.
    The environment answers as it likes, knowing the whole history. */
module TeardownModel {
  import opened Wrappers

  const DELETE_COMPLETE := "DELETE_COMPLETE"
  const DELETE_FAILED := "DELETE_FAILED"
  const MAX_ATTEMPTS: nat := 3

  // Where `invoke` may stop between the phases.
  const FIND_INSTANCES := "find instances"
  const CONFIRM := "confirm, clean up, terminate instances"
  const UNPROTECT_POOLS := "unprotect user pools"
  const DELETE_BACKUPS := "delete backups"
  const CONFIRM_BOOTSTRAP := "confirm deletion of the bootstrap stack"

  /** The answer to `describe_stacks`: the stack, a ValidationError (no such stack), or another error. */
  datatype Reply =
    | Found(stackName: string, status: string, isProtected: bool)
    | NoSuchStack
    | OtherError

  /** The answer to any other request. */
  datatype Answer = Accepted | ValidationError | OtherFailure

  /** Why a stack leaves the list of pending stacks. `Rejected`: a request made while handling it, not its
      description, raised a ValidationError, which the loop takes for a stack that is gone. */
  datatype Verdict = Gone | Rejected | GaveUp

  /** What was asked and answered. `CleanEnis` is the clean-up of network interfaces beside the named stack. */
  datatype Event =
    | Listed(arn: string, reply: Reply)
    | Lookup(name: string, reply: Reply)
    | Prompt(name: string, yes: bool)
    | Unprotect(name: string, answer: Answer)
    | Delete(name: string, answer: Answer)
    | Poll(name: string, reply: Reply)
    | CleanEnis(name: string, answer: Answer)
    | Wait
    | Stage(what: string, proceeds: bool)

  type History = seq<Event>

  datatype Environment = Environment(
    describe: (History, string) -> Reply,
    poll: (History, string) -> Reply,
    confirm: (History, string) -> bool,
    unprotect: (History, string) -> Answer,
    delete: (History, string) -> Answer,
    cleanEnis: History -> Answer,
    stage: (History, string) -> bool)

  /** How a step ends: normally, with SystemExit (or, in `invoke`, a return because something was not confirmed), with
      a ValidationError, or with another exception. */
  datatype Outcome = Proceed | Exit | Invalid | Raised

  datatype Module = Module(name: string, stackName: string)

  datatype Config = Config(clusterName: string, force: bool, modules: seq<Module>, env: Environment)

  // ---------------------------------------------------------------- which stack is which

  predicate IsModuleStack(c: Config, moduleName: string, suffix: string, stackName: string) {
    || (exists i | 0 <= i < |c.modules| :: c.modules[i].name == moduleName && c.modules[i].stackName == stackName)
    || stackName == c.clusterName + suffix
  }

  predicate IsClusterStack(c: Config, stackName: string) {
    IsModuleStack(c, "cluster", "-cluster", stackName)
  }

  predicate IsAnalyticsStack(c: Config, stackName: string) {
    IsModuleStack(c, "analytics", "-analytics", stackName)
  }

  predicate IsIdentityProviderStack(c: Config, stackName: string) {
    IsModuleStack(c, "identity-provider", "-identity-provider", stackName)
  }

  function BootstrapStackName(c: Config): string {
    c.clusterName + "-bootstrap"
  }

  datatype Kind = Ordinary | IdentityProvider | Cluster | Ignored

  /** Where a stack that was found goes: the tests in the order in which they are made. */
  function KindOf(c: Config, stackName: string): Kind {
    if stackName == "" || stackName == BootstrapStackName(c) then Ignored
    else if IsClusterStack(c, stackName) then Cluster
    else if IsIdentityProviderStack(c, stackName) then IdentityProvider
    else Ordinary
  }

  /** The names of one kind among the stacks found by a listing. */
  function FoundOf(c: Config, listing: History, kind: Kind): seq<string> {
    if listing == [] then []
    else
      var e, before := listing[|listing| - 1], FoundOf(c, listing[..|listing| - 1], kind);
      if e.Listed? && e.reply.Found? && KindOf(c, e.reply.stackName) == kind then before + [e.reply.stackName] else before
  }

  /** What `find_cloud_formation_stacks` finds: the stacks of each kind, in the order listed. */
  datatype Stacks = Stacks(ordinary: seq<string>, identity: seq<string>, cluster: seq<string>)

  function StacksOf(c: Config, listing: History): Stacks {
    Stacks(FoundOf(c, listing, Ordinary), FoundOf(c, listing, IdentityProvider), FoundOf(c, listing, Cluster))
  }

  /** Describing the stacks `arns` one after the other. */
  function Listing(c: Config, h: History, arns: seq<string>): History {
    if arns == [] then h
    else
      var arn, before := arns[|arns| - 1], Listing(c, h, arns[..|arns| - 1]);
      before + [Listed(arn, c.env.describe(before, arn))]
  }

  /** None of the descriptions raises an error other than a ValidationError. */
  ghost predicate Listable(c: Config, h: History, arns: seq<string>) {
    forall k | 0 <= k < |arns| :: !c.env.describe(Listing(c, h, arns[..k]), arns[k]).OtherError?
  }

  /** The resources of all pages, in order. */
  function Flat(pages: seq<seq<string>>): seq<string> {
    if pages == [] then [] else Flat(pages[..|pages| - 1]) + pages[|pages| - 1]
  }

  // ---------------------------------------------------------------- one deletion request

  datatype Submission = Submission(history: History, outcome: Outcome)

  function OutcomeOf(a: Answer): Outcome {
    match a
    case Accepted => Proceed
    case ValidationError => Invalid
    case OtherFailure => Raised
  }

  /** `delete_cloud_formation_stack` */
  function Submit(c: Config, h: History, name: string): Submission {
    var reply := c.env.describe(h, name);
    var h1 := h + [Lookup(name, reply)];
    match reply
    case NoSuchStack => Submission(h1, Proceed)
    case OtherError => Submission(h1, Raised)
    case Found(_, _, isProtected) =>
      if !isProtected then Request(c, h1, name)
      else if c.force then Unlock(c, h1, name)
      else
        var yes := c.env.confirm(h1, name);
        var h2 := h1 + [Prompt(name, yes)];
        if yes then Unlock(c, h2, name) else Submission(h2, Exit)
  }

  /** Disable termination protection, then delete. */
  function Unlock(c: Config, h: History, name: string): Submission {
    var answer := c.env.unprotect(h, name);
    var h1 := h + [Unprotect(name, answer)];
    if answer.Accepted? then Request(c, h1, name) else Submission(h1, OutcomeOf(answer))
  }

  function Request(c: Config, h: History, name: string): Submission {
    var answer := c.env.delete(h, name);
    Submission(h + [Delete(name, answer)], OutcomeOf(answer))
  }

  /** The requests with which a phase begins: one for each stack, until one does not end normally. */
  function Requests(c: Config, h: History, names: seq<string>): Submission {
    if names == [] then Submission(h, Proceed)
    else
      var s := Requests(c, h, names[..|names| - 1]);
      if s.outcome.Proceed? then Submit(c, s.history, names[|names| - 1]) else s
  }

  // ---------------------------------------------------------------- one poll of one stack

  predicate IsGone(reply: Reply) {
    reply.NoSuchStack? || (reply.Found? && reply.status == DELETE_COMPLETE)
  }

  predicate HasFailed(reply: Reply) {
    reply.Found? && reply.status == DELETE_FAILED
  }

  /** The stack is not on its way any more. */
  predicate IsTerminal(reply: Reply) {
    IsGone(reply) || HasFailed(reply) || reply.OtherError?
  }

  /** The history, the attempt counter, whether the stack left the pending list, whether it was counted as failed,
      and how the step ended. */
  datatype Polled = Polled(history: History, attempts: nat, settled: bool, gaveUp: bool, outcome: Outcome)

  /** The body of the polling loop, with the exceptions it catches. */
  function PollStep(c: Config, h: History, attempts: nat, name: string): Polled {
    var reply := c.env.poll(h, name);
    var h1 := h + [Poll(name, reply)];
    if reply.OtherError? then Polled(h1, attempts, false, false, Raised)
    else if IsGone(reply) then Polled(h1, attempts, true, false, Proceed)
    else if HasFailed(reply) && attempts >= MAX_ATTEMPTS then Polled(h1, attempts, true, true, Proceed)
    else if IsAnalyticsStack(c, name) then
      var answer := c.env.cleanEnis(h1);
      var h2 := h1 + [CleanEnis(name, answer)];
      match answer
      case Accepted => if HasFailed(reply) then Resubmit(c, h2, attempts, name) else Polled(h2, attempts, false, false, Proceed)
      case ValidationError => Polled(h2, attempts, true, false, Proceed)
      case OtherFailure => Polled(h2, attempts, false, false, Raised)
    else if HasFailed(reply) then Resubmit(c, h1, attempts, name)
    else Polled(h1, attempts, false, false, Proceed)
  }

  /** A new request for a failed deletion, counted when it does not raise. */
  function Resubmit(c: Config, h: History, attempts: nat, name: string): Polled {
    var s := Submit(c, h, name);
    match s.outcome
    case Proceed => Polled(s.history, attempts + 1, false, false, Proceed)
    case Invalid => Polled(s.history, attempts, true, false, Proceed)
    case o => Polled(s.history, attempts, false, false, o)
  }

  // ---------------------------------------------------------------- counting in a history

  /** The last poll since the last stage. While there is none, the deletions of a phase are being requested. */
  function LastPoll(h: History): Option<Event> {
    if h == [] then None
    else
      var e := h[|h| - 1];
      if e.Stage? then None else if e.Poll? then Some(e) else LastPoll(h[..|h| - 1])
  }

  /** The stack was asked to be deleted, or is not there. */
  predicate Asks(e: Event, name: string) {
    e == Lookup(name, NoSuchStack) || e == Delete(name, Accepted)
  }

  predicate IsFailure(e: Event) {
    e.Poll? && HasFailed(e.reply)
  }

  /** A resubmission: a deletion asked for when the last poll was of the same stack, and saw that its deletion had
      failed. */
  predicate Resubmits(h: History, i: nat)
    requires i < |h|
  {
    var last := LastPoll(h[..i]);
    last.Some? && IsFailure(last.value) && Asks(h[i], last.value.name)
  }

  function Resubmissions(h: History): nat {
    if h == [] then 0 else Resubmissions(h[..|h| - 1]) + if Resubmits(h, |h| - 1) then 1 else 0
  }

  function ResubmissionsOf(h: History, name: string): nat {
    if h == [] then 0
    else ResubmissionsOf(h[..|h| - 1], name) + if Resubmits(h, |h| - 1) && Asks(h[|h| - 1], name) then 1 else 0
  }

  /** Every deletion asked for, resubmissions included. */
  function Askings(h: History): nat {
    if h == [] then 0 else Askings(h[..|h| - 1]) + if IsAsking(h[|h| - 1]) then 1 else 0
  }

  predicate IsAsking(e: Event) {
    (e.Lookup? && e.reply.NoSuchStack?) || (e.Delete? && e.answer.Accepted?)
  }

  predicate IsRequest(e: Event) {
    e.Unprotect? || e.Delete? || e.CleanEnis?
  }

  predicate IsRejection(e: Event) {
    IsRequest(e) && e.answer == ValidationError
  }

  /** The answer at `i` makes the loop drop the stack it is about: the stack is gone, a request raised a
      ValidationError, or the deletion failed with the budget spent. */
  predicate SettlesAt(h: History, i: nat, v: Verdict)
    requires i < |h|
  {
    match v
    case Gone => h[i].Poll? && IsGone(h[i].reply)
    case Rejected => IsRejection(h[i])
    case GaveUp => h[i].Poll? && HasFailed(h[i].reply) && Resubmissions(h[..i]) == MAX_ATTEMPTS
  }

  /** The stacks dropped for the given reason. */
  function SettledAs(h: History, v: Verdict): multiset<string> {
    if h == [] then multiset{}
    else SettledAs(h[..|h| - 1], v) + if SettlesAt(h, |h| - 1, v) then multiset{h[|h| - 1].name} else multiset{}
  }

  function AllSettled(h: History): multiset<string> {
    SettledAs(h, Gone) + SettledAs(h, Rejected) + SettledAs(h, GaveUp)
  }

  function Waits(h: History): nat {
    if h == [] then 0 else Waits(h[..|h| - 1]) + if h[|h| - 1].Wait? then 1 else 0
  }

  function Polls(h: History, name: string): nat {
    if h == [] then 0
    else Polls(h[..|h| - 1], name) + if h[|h| - 1].Poll? && h[|h| - 1].name == name then 1 else 0
  }

  function TerminalPolls(h: History, name: string): nat {
    if h == [] then 0
    else
      var e := h[|h| - 1];
      TerminalPolls(h[..|h| - 1], name) + if e.Poll? && e.name == name && IsTerminal(e.reply) then 1 else 0
  }

  /** The polls of a stack since its last deletion request or terminal status, none of which was terminal. */
  function Quiet(h: History, name: string): nat {
    if h == [] then 0
    else
      var e, before := h[|h| - 1], Quiet(h[..|h| - 1], name);
      if e.Poll? && e.name == name then if IsTerminal(e.reply) then 0 else before + 1
      else if e.Delete? && e.name == name then 0
      else before
  }

  /** After `b` consecutive polls without a terminal status, the next one has one. */
  ghost predicate Responsive(env: Environment, b: nat) {
    forall h: History, name: string | Quiet(h, name) >= b :: IsTerminal(env.poll(h, name))
  }
}
