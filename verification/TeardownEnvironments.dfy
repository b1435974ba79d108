/** No finite history is ruled out by `Responsive`: what holds of all sound histories of responsive environments holds
    of all sound histories. */
module TeardownEnvironments {
  import opened TeardownModel
  import opened TeardownSteps

  /** The environment that answers like `e` until the history is `n` events long, and from then on describes every
      stack it is polled about as gone. */
  function Late(e: Environment, n: nat): Environment {
    e.(poll := (h: History, name: string) => if |h| < n then e.poll(h, name) else NoSuchStack)
  }

  lemma {:induction false} QuietWithin(h: History, name: string)
    ensures Quiet(h, name) <= |h|
  {
    if h != [] {
      QuietWithin(h[..|h| - 1], name);
    }
  }

  lemma LateIsResponsive(e: Environment, n: nat)
    ensures Responsive(Late(e, n), n)
  {
    forall h: History, name: string | Quiet(h, name) >= n ensures IsTerminal(Late(e, n).poll(h, name)) {
      QuietWithin(h, name);
    }
  }

  /** Every step taken from a shorter history is the same in both environments. */
  lemma LateStepsAlike(c: Config, n: nat, h: History, attempts: nat, name: string)
    requires |h| < n
    ensures var d := c.(env := Late(c.env, n));
            PollStep(d, h, attempts, name) == PollStep(c, h, attempts, name) && Submit(d, h, name) == Submit(c, h, name)
  {
    var d := c.(env := Late(c.env, n));
    assert IsAnalyticsStack(d, name) == IsAnalyticsStack(c, name);
    forall g ensures Submit(d, g, name) == Submit(c, g, name) {
      LateSubmitsAlike(c, n, g, name);
    }
  }

  lemma LateSubmitsAlike(c: Config, n: nat, h: History, name: string)
    ensures Submit(c.(env := Late(c.env, n)), h, name) == Submit(c, h, name)
  {
  }

  /** Any history is sound for a given environment if and only if it is sound for one that is responsive besides. */
  lemma EveryHistoryIsResponsive(c: Config, h: History)
    ensures var d := c.(env := Late(c.env, |h|));
            Responsive(d.env, |h|) && (Sound(d, h) <==> Sound(c, h))
  {
    var d := c.(env := Late(c.env, |h|));
    LateIsResponsive(c.env, |h|);
    forall i | 0 <= i < |h|
      ensures Genuine(d, h, i) <==> Genuine(c, h, i)
      ensures Justified(d, h, i) <==> Justified(c, h, i)
    {
      assert h[i].CleanEnis? ==> IsAnalyticsStack(d, h[i].name) == IsAnalyticsStack(c, h[i].name);
    }
  }
}
