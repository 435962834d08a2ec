/** opt.c with the list that opt_init really builds: it links only the first node. */
module OptAsBuilt {
  import opened Options
  import opened Addresses
  import opened Paging
  import opened Runs
  import opened Bookkeeping
  import opened Residency
  import opened Optimal
  import opened Policies
  import opened ReadRuns

  /** The list opt_init leaves for a trace. */
  function ListBuilt(trace: seq<Ref>): (head: seq<nat>)
    ensures |head| <= 1
  {
    if trace == [] then [] else [trace[0].vaddr]
  }

  /** A run of the simulator under opt as built. */
  ghost predicate IsBuiltRun(
      stamp: nat -> nat, ss: seq<State>, trace: seq<Ref>, ds: seq<Decision>, gs: seq<Globals>,
      swapSize: nat, junk: seq<Content>)
  {
    && IsRunOf(OptAlg, stamp, ss, trace, ds, gs)
    && ss[0] == Initial(swapSize, junk)
    && gs[0].head == ListBuilt(trace)
  }

  /** With such a list opt.c evicts frame 0 every time, whatever the address words of the entries. */
  lemma EvictsFrameZero(
      stamp: nat -> nat, ss: seq<State>, trace: seq<Ref>, ds: seq<Decision>, gs: seq<Globals>,
      swapSize: nat, junk: seq<Content>, n: nat)
    requires IsBuiltRun(stamp, ss, trace, ds, gs, swapSize, junk) && |junk| > 0 && n < |trace|
    ensures n > 0 ==> gs[n].head == []
    ensures Evicts(ss[n], trace[n]) ==> ds[n].victim == 0
  {
    hide Next, Inv, Loaded, OptVictim;
    assert AnswersAt(OptAlg, stamp, ss, trace, ds, gs, n);
    if n > 0 {
      EvictsFrameZero(stamp, ss, trace, ds, gs, swapSize, junk, n - 1);
      assert AnswersAt(OptAlg, stamp, ss, trace, ds, gs, n - 1);
    }
  }

  // ------------------------------------------------------ its runs

  /** What opt's globals are along a run: its list is empty after the first reference. */
  function BuiltGlobals(trace: seq<Ref>): (gs: seq<Globals>)
    ensures |gs| == |trace| + 1
  {
    seq(|trace| + 1, i => Globals(0, 0, if i == 0 then ListBuilt(trace) else []))
  }

  /** A run whose victims are all frame 0 is a run of opt as built. */
  lemma ZeroRunIsBuilt(
      stamp: nat -> nat, ss: seq<State>, trace: seq<Ref>, ds: seq<Decision>, swapSize: nat, junk: seq<Content>)
    requires IsRun(ss, trace, ds) && ss[0] == Initial(swapSize, junk) && |junk| > 0
    requires forall i | 0 <= i < |ds| :: ds[i] == Decision(0, {})
    ensures IsBuiltRun(stamp, ss, trace, ds, BuiltGlobals(trace), swapSize, junk)
  {
    hide Next, Inv, OptVictim, Loaded, Stamps, Counted, Evicts;
    var gs := BuiltGlobals(trace);
    forall i: nat | i < |trace| ensures AnswersAt(OptAlg, stamp, ss, trace, ds, gs, i) {
      assert StepAt(ss, trace, ds, i);
      CountersOverRun(ss, trace, ds, swapSize, junk, i);
      RunKeepsInv(ss, trace, ds, i);
      NextAddress(ss[i], trace[i], ds[i], ss[i + 1]);
      EvictsIff(ss[i], trace[i]);
      NothingLoaded(swapSize, junk);
    }
  }

  lemma NothingLoaded(swapSize: nat, junk: seq<Content>)
    ensures Loaded(Initial(swapSize, junk).owner) == []
  {
  }

  // ----------------------------------------------------------- when it is MIN

  /** On traces over `n` pages opt as built never misses more often than any other policy with the same
      memory. */
  ghost predicate BuiltIsMinimal(m: nat, n: nat) {
    forall stamp: nat -> nat, trace: seq<Ref>,
        ss: seq<State>, ds: seq<Decision>, gs: seq<Globals>, swapSize: nat, junk: seq<Content>,
        ss': seq<State>, ds': seq<Decision>, swapSize': nat, junk': seq<Content> |
      && Below(Pages(trace), n)
      && IsBuiltRun(stamp, ss, trace, ds, gs, swapSize, junk) && |junk| == m
      && IsRun(ss', trace, ds') && ss'[0] == Initial(swapSize', junk') && |junk'| == m ::
      ss[|trace|].count.misses <= ss'[|trace|].count.misses
  }

  /** A run of opt as built on reads only, and one of another policy that misses once less. */
  lemma BuiltMissesMore(m: nat) returns (
      trace: seq<Ref>, ss: seq<State>, ds: seq<Decision>, gs: seq<Globals>, junk: seq<Content>,
      ss': seq<State>, ds': seq<Decision>)
    requires 2 <= m < PAGES
    ensures Below(Pages(trace), m + 1)
    ensures IsBuiltRun(p => 0, ss, trace, ds, gs, 0, junk) && |junk| == m
    ensures IsRun(ss', trace, ds') && ss'[0] == Initial(0, junk)
    ensures ss[|trace|].count.misses == m + 2 && ss'[|trace|].count.misses == m + 1
  {
    hide Next, Misses, Initial, Inv, PageOf;
    var pages := Upto(m) + [m, 0];
    junk := seq(m, _ => Content(0, 0));
    trace := Reads(pages);
    var vs, us := Zeros(m) + [0, 0], Zeros(m) + [1, 0];
    var ignored;
    ss, ds, gs := ReadRun(pages, vs, junk, |pages|);
    ss', ds', ignored := ReadRun(pages, us, junk, |pages|);
    assert trace[..|pages|] == trace && vs[..|pages|] == vs && us[..|pages|] == us;
    forall i | 0 <= i < |ds| ensures ds[i] == Decision(0, {}) {
      assert Victims(ds)[i] == 0;
    }
    gs := BuiltGlobals(trace);
    ZeroRunIsBuilt(p => 0, ss, trace, ds, 0, junk);
    MissesOverRun(ss, trace, ds, 0, junk);
    MissesOverRun(ss', trace, ds', 0, junk);
    OnceAround(m, 0, vs);
    OnceAround(m, 1, us);
  }

  /** Opt as built is minimal on traces over `n` pages if and only if there is nothing to choose: with a
      single frame, or with a frame for every page. */
  lemma BuiltIsMinimalIff(m: nat, n: nat)
    requires m > 0 && n <= PAGES
    ensures BuiltIsMinimal(m, n) <==> m == 1 || n <= m
  {
    hide Next, Initial, Inv, Below, Pages;
    if m == 1 || n <= m {
      forall stamp: nat -> nat, trace: seq<Ref>,
          ss: seq<State>, ds: seq<Decision>, gs: seq<Globals>, swapSize: nat, junk: seq<Content>,
          ss': seq<State>, ds': seq<Decision>, swapSize': nat, junk': seq<Content> |
        && Below(Pages(trace), n)
        && IsBuiltRun(stamp, ss, trace, ds, gs, swapSize, junk) && |junk| == m
        && IsRun(ss', trace, ds') && ss'[0] == Initial(swapSize', junk') && |junk'| == m
        ensures ss[|trace|].count.misses <= ss'[|trace|].count.misses
      {
        SameMisses(trace, ss, ds, swapSize, junk, ss', ds', swapSize', junk', n);
      }
    } else {
      var trace, ss, ds, gs, junk, ss', ds' := BuiltMissesMore(m);
      BelowMore(Pages(trace), m + 1, n);
    }
  }
}
