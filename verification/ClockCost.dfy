/** What it costs that clock.c never evicts frame 0: a page there that is not used again takes up the frame
    for ever, and CLOCK as built has no competitive factor. */
module ClockCost {
  import opened Options
  import opened Addresses
  import opened Paging
  import opened Runs
  import opened Bookkeeping
  import opened Residency
  import opened Optimal
  import opened Clock
  import opened Policies
  import opened ReadRuns

  // ------------------------------------------------------- one reading miss

  function Read(p: nat): Ref {
    Ref('L', p * PAGE_SIZE)
  }

  /** CLOCK's answer, and where the hand stands after it. */
  lemma ClockAnswer(s: State, r: Ref, hand: nat) returns (d: Decision, next: nat)
    requires Inv(s) && |s.owner| >= 2 && hand < |s.owner|
    ensures ClockStep(s, r, d, hand, next) && d.victim < |s.owner| && next < |s.owner|
  {
    d, next := Decision(0, {}), hand;
    if Evicts(s, r) {
      var sweep := DoSweep(RefBits(s), hand);
      d, next := Decision(sweep.victim, PagesHeld(s.owner, sweep.passed)), sweep.victim;
      PagesTellFrames(s, sweep.passed);
    }
  }

  /** What holds of a memory that CLOCK has only read into. */
  ghost predicate ClockReady(s: State, hand: nat, m: nat) {
    Inv(s) && ValidAreClean(s) && Counted(s) && |s.owner| == m && hand < m && HandOk(s, hand)
  }

  lemma ClockReadStep(s: State, p: nat, hand: nat, m: nat) returns (d: Decision, t: State, next: nat)
    requires m >= 2 && ClockReady(s, hand, m) && p < PAGES && p !in Loaded(s.owner)
    ensures Inv(s) && Next(s, Read(p), d, t) && ClockStep(s, Read(p), d, hand, next) && ClockReady(t, next, m)
    ensures t.count.misses == s.count.misses + 1
    ensures if |Loaded(s.owner)| < m then Loaded(t.owner) == Loaded(s.owner) + [p]
            else |Loaded(s.owner)| == m && 0 < d.victim < m && Loaded(t.owner) == Loaded(s.owner)[d.victim := p]
  {
    hide Next, Inv, Counted, Loaded, ClockStep, HandOk, Evicts, ValidAreClean;
    var r := Read(p);
    d, next := ClockAnswer(s, r, hand);
    t := ReadSucceeds(s, r, d);
    EvictsIff(s, r);
    StepLoaded(s, r, d, t);
    HandStep(s, r, d, t, hand, next);
  }

  // ----------------------------------------------------- a trace of misses only

  /** Some page up to `m` is not among `m` pages. */
  lemma AbsentPage(f: seq<nat>, m: nat) returns (p: nat)
    requires |f| <= m
    ensures p <= m && p !in f
  {
    var all := Upto(m + 1);
    if forall k: nat | k < m + 1 :: k in SetOf(f) {
      forall x | x in SetOf(all) ensures x in SetOf(f) {
        assert x < m + 1;
      }
      DistinctSize(all);
      SubsetSize(SetOf(all), SetOf(f));
      DistinctSize(f);
    }
    p :| p < m + 1 && p !in SetOf(f);
  }

  /** The pages asked for: 0 to m first, and never page 0 again. */
  predicate AvoidsZero(pages: seq<nat>, m: nat) {
    && Below(pages, m + 1)
    && (forall i | 0 <= i < |pages| && i <= m :: pages[i] == i)
    && forall i | m <= i < |pages| :: pages[i] > 0
  }

  /** What is loaded after those references: page 0 stays in frame 0. */
  predicate KeepsZero(f: seq<nat>, n: nat, m: nat) {
    && |f| == Min(m, n)
    && (n <= m ==> forall i | 0 <= i < |f| :: f[i] == i)
    && (n > 0 ==> f != [] && f[0] == 0)
  }

  lemma NextPage(f: seq<nat>, pages: seq<nat>, m: nat) returns (p: nat)
    requires m > 0 && AvoidsZero(pages, m) && KeepsZero(f, |pages|, m)
    ensures p <= m && p !in f && AvoidsZero(pages + [p], m)
    ensures |pages| < m ==> KeepsZero(f + [p], |pages| + 1, m)
  {
    if |pages| < m {
      p := |pages|;
    } else {
      p := AbsentPage(f, m);
      assert f[0] != p;
      assert |pages| == m && p < m ==> f[p] == p;
    }
  }

  lemma ReplacedKeepsZero(f: seq<nat>, v: nat, p: nat, n: nat, m: nat)
    requires m > 0 && KeepsZero(f, n, m) && n >= m && 0 < v < |f|
    ensures KeepsZero(f[v := p], n + 1, m)
  {
  }

  /** For every length there is a trace on which CLOCK misses every time. */
  lemma {:induction false} ClockMissesAll(stamp: nat -> nat, m: nat, junk: seq<Content>, n: nat)
    returns (pages: seq<nat>, ss: seq<State>, ds: seq<Decision>, gs: seq<Globals>)
    requires 2 <= m < PAGES && |junk| == m
    ensures |pages| == n && AvoidsZero(pages, m)
    ensures IsRunOf(ClockAlg, stamp, ss, Reads(pages), ds, gs)
    ensures ss[0] == Initial(0, junk) && gs[0].hand == 0
    ensures ClockReady(ss[n], gs[n].hand, m) && KeepsZero(Loaded(ss[n].owner), n, m) && ss[n].count.misses == n
  {
    hide Next, Inv, Counted, Loaded, ClockStep, ValidAreClean, ClockReady, KeepsZero, AvoidsZero, Initial;
    if n == 0 {
      pages, ss, ds, gs := [], [Initial(0, junk)], [], [Globals(0, 0, [])];
      ReadyAtStart(junk);
    } else {
      pages, ss, ds, gs := ClockMissesAll(stamp, m, junk, n - 1);
      var s, hand := ss[n - 1], gs[n - 1].hand;
      var p := NextPage(Loaded(s.owner), pages, m);
      var d, t, next := ClockReadStep(s, p, hand, m);
      StillKeepsZero(Loaded(s.owner), n - 1, m);
      if n - 1 >= m {
        ReplacedKeepsZero(Loaded(s.owner), d.victim, p, n - 1, m);
      }
      ClockAnswers(stamp, s, Read(p), d, gs[n - 1], Globals(0, next, []));
      ExtendRun(ClockAlg, stamp, ss, Reads(pages), ds, gs, Read(p), d, t, Globals(0, next, []));
      assert Reads(pages + [p]) == Reads(pages) + [Read(p)];
      pages, ss, ds, gs := pages + [p], ss + [t], ds + [d], gs + [Globals(0, next, [])];
    }
  }

  lemma ReadyAtStart(junk: seq<Content>)
    requires |junk| > 0
    ensures ClockReady(Initial(0, junk), 0, |junk|) && Initial(0, junk).count.misses == 0
    ensures AvoidsZero([], |junk|) && KeepsZero(Loaded(Initial(0, junk).owner), 0, |junk|)
  {
  }

  lemma StillKeepsZero(f: seq<nat>, n: nat, m: nat)
    requires KeepsZero(f, n, m)
    ensures |f| < m <==> n < m
    ensures |f| <= m
  {
  }

  lemma ClockAnswers(stamp: nat -> nat, s: State, r: Ref, d: Decision, a: Globals, b: Globals)
    requires Inv(s) && ClockStep(s, r, d, a.hand, b.hand)
    ensures Answers(ClockAlg, stamp, s, r, d, a, b)
  {
  }

  // ------------------------------------------------- the same trace, once around

  lemma {:induction false} AllHits(f: seq<nat>, pages: seq<nat>, vs: seq<nat>, m: nat)
    requires |f| <= m && |vs| == |pages| && InRange(vs, m)
    requires forall i | 0 <= i < |pages| :: pages[i] in f
    ensures Misses(f, pages, vs, m) == 0
    decreases |pages|
  {
    if pages != [] {
      assert pages[0] in f;
      AllHits(f, pages[1..], vs[1..], m);
    }
  }

  lemma ReplaceOne(m: nat, pages: seq<nat>, vs: seq<nat>)
    requires m > 0 && |vs| == |pages| && InRange(vs, m)
    ensures InRange([0] + vs, m)
    ensures Misses(Upto(m), [m] + pages, [0] + vs, m) == 1 + Misses(Upto(m)[0 := m], pages, vs, m)
  {
    assert ([m] + pages)[1..] == pages && ([0] + vs)[1..] == vs;
  }

  /** Giving up page 0 for page m leaves nothing to miss. */
  lemma ReplaceZero(pages: seq<nat>, m: nat)
    requires m > 0 && |pages| > m && AvoidsZero(pages, m)
    ensures InRange(Zeros(|pages|), m)
    ensures Misses([], pages, Zeros(|pages|), m) == m + 1
  {
    hide Misses;
    var f, later, vs := Upto(m)[0 := m], pages[m + 1..], Zeros(|pages|);
    forall i | 0 <= i < |later| ensures later[i] in f {
      var p := pages[m + 1 + i];
      assert f[if p == m then 0 else p] == p;
    }
    AllHits(f, later, vs[m + 1..], m);
    ReplaceOne(m, later, vs[m + 1..]);
    assert [m] + later == pages[m..] && [0] + vs[m + 1..] == vs[m..];
    Filling(0, m, pages[m..], vs);
    assert Upto(m)[0..] + pages[m..] == pages && Upto(0) == [];
  }

  /** For every length there are a CLOCK run that misses every time and a run of another policy on the same
      trace that misses memsize + 1 times in all. */
  lemma ClockMissesMore(stamp: nat -> nat, m: nat, n: nat) returns (
      trace: seq<Ref>, ss: seq<State>, ds: seq<Decision>, gs: seq<Globals>, junk: seq<Content>,
      ss': seq<State>, ds': seq<Decision>)
    requires 2 <= m < PAGES && n > m
    ensures Below(Pages(trace), m + 1) && |trace| == n && |junk| == m
    ensures IsRunOf(ClockAlg, stamp, ss, trace, ds, gs) && ss[0] == Initial(0, junk) && gs[0].hand == 0
    ensures IsRun(ss', trace, ds') && ss'[0] == Initial(0, junk)
    ensures ss[n].count.misses == n && ss'[n].count.misses == m + 1
  {
    hide Next, Inv, Initial, Misses, ClockReady, PageOf;
    junk := seq(m, _ => Content(0, 0));
    var pages, ignored;
    pages, ss, ds, gs := ClockMissesAll(stamp, m, junk, n);
    ss', ds', ignored := ReadRun(pages, Zeros(n), junk, n);
    trace := Reads(pages);
    assert trace[..n] == trace && Zeros(n)[..n] == Zeros(n);
    MissesOverRun(ss', trace, ds', 0, junk);
    ReplaceZero(pages, m);
  }

  // --------------------------------------------------------- the exact answer

  /** On traces over `n` pages CLOCK misses at most `c` times as often as any policy with the same memory. */
  ghost predicate HasFactor(m: nat, n: nat, c: nat) {
    forall stamp: nat -> nat, trace: seq<Ref>,
        ss: seq<State>, ds: seq<Decision>, gs: seq<Globals>, swapSize: nat, junk: seq<Content>,
        ss': seq<State>, ds': seq<Decision>, swapSize': nat, junk': seq<Content> |
      && Below(Pages(trace), n)
      && IsRunOf(ClockAlg, stamp, ss, trace, ds, gs) && gs[0].hand == 0
      && ss[0] == Initial(swapSize, junk) && |junk| == m
      && IsRun(ss', trace, ds') && ss'[0] == Initial(swapSize', junk') && |junk'| == m ::
      ss[|trace|].count.misses <= c * ss'[|trace|].count.misses
  }

  lemma NothingToChoose(m: nat, n: nat)
    requires m == 1 || n <= m
    ensures HasFactor(m, n, 1)
  {
    hide Next, Initial, Inv, Below, Pages, Answers;
    forall stamp: nat -> nat, trace: seq<Ref>,
        ss: seq<State>, ds: seq<Decision>, gs: seq<Globals>, swapSize: nat, junk: seq<Content>,
        ss': seq<State>, ds': seq<Decision>, swapSize': nat, junk': seq<Content> |
      && Below(Pages(trace), n)
      && IsRunOf(ClockAlg, stamp, ss, trace, ds, gs) && gs[0].hand == 0
      && ss[0] == Initial(swapSize, junk) && |junk| == m
      && IsRun(ss', trace, ds') && ss'[0] == Initial(swapSize', junk') && |junk'| == m
      ensures ss[|trace|].count.misses <= 1 * ss'[|trace|].count.misses
    {
      SameMisses(trace, ss, ds, swapSize, junk, ss', ds', swapSize', junk', n);
    }
  }

  lemma NoFactor(m: nat, n: nat, c: nat)
    requires 2 <= m < n <= PAGES
    ensures !HasFactor(m, n, c)
  {
    hide Next, Initial, Inv, Below, Pages, Answers;
    var length := c * (m + 1) + m + 1;
    var trace, ss, ds, gs, junk, ss', ds' := ClockMissesMore(p => 0, m, length);
    BelowMore(Pages(trace), m + 1, n);
  }

  /** Unlike fifo, which has the factor memsize, clock as built has a factor on traces over `n` pages, of
      whatever size, if and only if there is nothing to choose. */
  lemma ClockFactorIff(m: nat, n: nat)
    requires m > 0 && n <= PAGES
    ensures (exists c: nat :: HasFactor(m, n, c)) <==> m == 1 || n <= m
  {
    hide HasFactor;
    if m == 1 || n <= m {
      NothingToChoose(m, n);
    } else {
      forall c: nat ensures !HasFactor(m, n, c) {
        NoFactor(m, n, c);
      }
    }
  }
}
