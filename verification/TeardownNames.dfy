/** Which stack is which, in plain terms: by its name, and by the module rows. */
module TeardownNames {
  import opened TeardownModel

  /** The stack is that of a module with this name, by its row or by convention. */
  predicate BelongsTo(c: Config, moduleName: string, stackName: string) {
    stackName == c.clusterName + "-" + moduleName || Module(moduleName, stackName) in c.modules
  }

  /** The stack may be deleted before the bootstrap stack. */
  predicate IsDeletable(c: Config, stackName: string) {
    stackName != "" && stackName != c.clusterName + "-bootstrap"
  }

  predicate IsCluster(c: Config, stackName: string) {
    IsDeletable(c, stackName) && BelongsTo(c, "cluster", stackName)
  }

  predicate IsIdentityProvider(c: Config, stackName: string) {
    IsDeletable(c, stackName) && BelongsTo(c, "identity-provider", stackName) && !BelongsTo(c, "cluster", stackName)
  }

  predicate IsOrdinary(c: Config, stackName: string) {
    IsDeletable(c, stackName) && !BelongsTo(c, "identity-provider", stackName) && !BelongsTo(c, "cluster", stackName)
  }

  lemma ModuleStackIs(c: Config, moduleName: string, suffix: string, stackName: string)
    requires suffix == "-" + moduleName
    ensures IsModuleStack(c, moduleName, suffix, stackName) <==> BelongsTo(c, moduleName, stackName)
  {
    assert c.clusterName + suffix == c.clusterName + "-" + moduleName;
    if Module(moduleName, stackName) in c.modules {
      var i :| 0 <= i < |c.modules| && c.modules[i] == Module(moduleName, stackName);
    }
  }

  /** The tests made by the search sort the stacks as their names say. */
  lemma KindIs(c: Config, stackName: string)
    ensures KindOf(c, stackName) == Cluster <==> IsCluster(c, stackName)
    ensures KindOf(c, stackName) == IdentityProvider <==> IsIdentityProvider(c, stackName)
    ensures KindOf(c, stackName) == Ordinary <==> IsOrdinary(c, stackName)
    ensures BootstrapStackName(c) == c.clusterName + "-bootstrap"
  {
    ModuleStackIs(c, "cluster", "-cluster", stackName);
    ModuleStackIs(c, "identity-provider", "-identity-provider", stackName);
  }

  /** How often a listing found the stack. */
  function TimesFound(listing: History, stackName: string): nat {
    if listing == [] then 0
    else
      var e := listing[|listing| - 1];
      TimesFound(listing[..|listing| - 1], stackName)
      + if e.Listed? && e.reply.Found? && e.reply.stackName == stackName then 1 else 0
  }

  /** The lists hold the stacks that were found, as often as they were, each where its name says. */
  ghost predicate SortedByName(c: Config, listing: History, f: Stacks) {
    forall x ::
      && multiset(f.cluster)[x] == (if IsCluster(c, x) then TimesFound(listing, x) else 0)
      && multiset(f.identity)[x] == (if IsIdentityProvider(c, x) then TimesFound(listing, x) else 0)
      && multiset(f.ordinary)[x] == (if IsOrdinary(c, x) then TimesFound(listing, x) else 0)
  }

  lemma {:induction false} FoundTimes(c: Config, listing: History, kind: Kind, x: string)
    ensures multiset(FoundOf(c, listing, kind))[x] == if KindOf(c, x) == kind then TimesFound(listing, x) else 0
  {
    if listing != [] {
      hide KindOf;
      FoundTimes(c, listing[..|listing| - 1], kind, x);
    }
  }

  lemma StacksAreSorted(c: Config, listing: History)
    ensures SortedByName(c, listing, StacksOf(c, listing))
  {
    hide KindOf, IsCluster, IsIdentityProvider, IsOrdinary, FoundOf;
    forall x
      ensures var f := StacksOf(c, listing);
              && multiset(f.cluster)[x] == (if IsCluster(c, x) then TimesFound(listing, x) else 0)
              && multiset(f.identity)[x] == (if IsIdentityProvider(c, x) then TimesFound(listing, x) else 0)
              && multiset(f.ordinary)[x] == (if IsOrdinary(c, x) then TimesFound(listing, x) else 0)
    {
      KindIs(c, x);
      FoundTimes(c, listing, Cluster, x);
      FoundTimes(c, listing, IdentityProvider, x);
      FoundTimes(c, listing, Ordinary, x);
    }
  }

  /** The stacks of one kind are in the order in which they were found: number `i` by the description at `at[i]`. */
  lemma {:induction false} FoundInOrder(c: Config, listing: History, kind: Kind) returns (at: seq<nat>)
    ensures |at| == |FoundOf(c, listing, kind)| && forall i, j | 0 <= i < j < |at| :: at[i] < at[j]
    ensures forall i | 0 <= i < |at| ::
              at[i] < |listing| && listing[at[i]].Listed? && listing[at[i]].reply.Found?
              && listing[at[i]].reply.stackName == FoundOf(c, listing, kind)[i]
  {
    if listing == [] {
      at := [];
    } else {
      hide KindOf;
      var n := |listing| - 1;
      at := FoundInOrder(c, listing[..n], kind);
      if |FoundOf(c, listing, kind)| > |FoundOf(c, listing[..n], kind)| {
        at := at + [n];
      }
    }
  }

  // ---------------------------------------------------------------- what comes first

  /** The requests of a phase are made in the order of its stacks, up to the first that does not end normally. */
  lemma {:induction false} RequestsInOrder(c: Config, h: History, names: seq<string>)
    requires names != []
    ensures var first := Submit(c, h, names[0]);
            Requests(c, h, names) == if first.outcome.Proceed? then Requests(c, first.history, names[1..]) else first
    decreases |names|
  {
    hide Submit;
    if |names| == 1 {
      assert names[..0] == [] && names[1..] == [];
    } else {
      var before := names[..|names| - 1];
      RequestsInOrder(c, h, before);
      assert before[1..] == names[1..][..|names| - 2] && before[0] == names[0];
    }
  }

  /** The stacks are described in the order of the resources, page after page. */
  lemma {:induction false} ListingInOrder(c: Config, h: History, arns: seq<string>)
    requires arns != []
    ensures Listing(c, h, arns) == Listing(c, h + [Listed(arns[0], c.env.describe(h, arns[0]))], arns[1..])
    decreases |arns|
  {
    if |arns| == 1 {
      assert arns[..0] == [] && arns[1..] == [];
    } else {
      var before := arns[..|arns| - 1];
      ListingInOrder(c, h, before);
      assert before[1..] == arns[1..][..|arns| - 2] && before[0] == arns[0];
    }
  }

  lemma {:induction false} FlatInOrder(pages: seq<seq<string>>)
    requires pages != []
    ensures Flat(pages) == pages[0] + Flat(pages[1..])
    decreases |pages|
  {
    if |pages| == 1 {
      assert pages[..0] == [] && pages[1..] == [];
      assert [] + pages[0] == pages[0] && pages[0] + [] == pages[0];
    } else {
      var before := pages[..|pages| - 1];
      FlatInOrder(before);
      assert before[1..] == pages[1..][..|pages| - 2] && before[0] == pages[0];
      assert pages[0] + Flat(before[1..]) + pages[|pages| - 1] == pages[0] + (Flat(before[1..]) + pages[|pages| - 1]);
    }
  }

  // ---------------------------------------------------------------- one poll, by the status

  /** One poll, told by the status the stack is in: gone, failed with three resubmissions behind it, failed, or on its
      way. For the stack of the analytics module the network interfaces are cleaned up in the last two cases. */
  lemma PollByStatus(c: Config, h: History, attempts: nat, name: string)
    ensures var p, reply := PollStep(c, h, attempts, name), c.env.poll(h, name);
            var h1 := h + [Poll(name, reply)];
            && (reply.NoSuchStack? ==> p == Polled(h1, attempts, true, false, Proceed))
            && (reply.OtherError? ==> p == Polled(h1, attempts, false, false, Raised))
            && (reply.Found? && reply.status == "DELETE_COMPLETE" ==> p == Polled(h1, attempts, true, false, Proceed))
            && (reply.Found? && reply.status == "DELETE_FAILED" && attempts >= 3 ==>
                  p == Polled(h1, attempts, true, true, Proceed))
            && (reply.Found? && reply.status != "DELETE_COMPLETE" && (reply.status == "DELETE_FAILED" ==> attempts < 3) ==>
                  var answer := c.env.cleanEnis(h1);
                  var g := if BelongsTo(c, "analytics", name) then h1 + [CleanEnis(name, answer)] else h1;
                  if g != h1 && answer.ValidationError? then p == Polled(g, attempts, true, false, Proceed)
                  else if g != h1 && answer.OtherFailure? then p == Polled(g, attempts, false, false, Raised)
                  else if reply.status != "DELETE_FAILED" then p == Polled(g, attempts, false, false, Proceed)
                  else
                    var s := Submit(c, g, name);
                    && p.history == s.history && !p.gaveUp
                    && p.attempts == attempts + (if s.outcome.Proceed? then 1 else 0)
                    && p.settled == s.outcome.Invalid?
                    && p.outcome == if s.outcome.Invalid? then Proceed else s.outcome)
  {
    hide IsModuleStack, BelongsTo, Submit;
    ModuleStackIs(c, "analytics", "-analytics", name);
    var h1 := h + [Poll(name, c.env.poll(h, name))];
    assert h1 + [CleanEnis(name, c.env.cleanEnis(h1))] != h1 by {
      assert |h1 + [CleanEnis(name, c.env.cleanEnis(h1))]| > |h1|;
    }
  }
}
