/** CLOCK eviction: the sweep of clock.c, when it ends, what it picks, and the second chance it gives. */
module Clock {
  import opened Options
  import opened Addresses
  import opened Paging
  import opened Runs

  // -------------------------------------------------------------- the sweep

  datatype Tick = Found(victim: nat) | Go(refs: seq<bool>, hand: nat)

  /** One round of the loop in clock_evict. Past the last frame the hand goes back to 0 and is then
      moved on, so the next frame looked at is 1. */
  function DoTick(refs: seq<bool>, hand: nat): Tick {
    if hand < |refs| then
      if refs[hand] then Go(refs[hand := false], hand + 1) else Found(hand)
    else Go(refs, 1)
  }

  /** The loop ends within `n` rounds. */
  predicate Halts(refs: seq<bool>, hand: nat, n: nat)
    decreases n
  {
    n > 0 &&
    match DoTick(refs, hand)
    case Found(_) => true
    case Go(r, h) => Halts(r, h, n - 1)
  }

  function Trues(refs: seq<bool>): nat {
    if refs == [] then 0 else Trues(refs[..|refs| - 1]) + (if refs[|refs| - 1] then 1 else 0)
  }

  lemma {:induction false} ClearOne(refs: seq<bool>, i: nat)
    requires i < |refs| && refs[i]
    ensures Trues(refs[i := false]) == Trues(refs) - 1
  {
    var n := |refs| - 1;
    if i < n {
      ClearOne(refs[..n], i);
      assert refs[i := false][..n] == refs[..n][i := false];
    } else {
      assert refs[i := false][..n] == refs[..n];
    }
  }

  /** The frame the sweep settles on, the bits it leaves, and the frames it passed over. */
  datatype Sweep = Sweep(victim: nat, refs: seq<bool>, passed: set<nat>)

  /** The whole sweep. The victim's bit is clear, exactly the bits of the frames passed over are
      cleared, and frame 0 is chosen only by a hand that still stands there on a clear bit. */
  function DoSweep(refs: seq<bool>, hand: nat): (s: Sweep)
    requires |refs| >= 2 && hand <= |refs|
    ensures s.victim < |refs| == |s.refs| && !s.refs[s.victim]
    ensures forall f | 0 <= f < |refs| :: s.refs[f] == (refs[f] && f !in s.passed)
    ensures forall f | f in s.passed :: f < |refs| && refs[f]
    ensures s.victim == 0 ==> hand == 0 && !refs[0]
    decreases Trues(refs), if hand == |refs| then 1 else 0
  {
    match DoTick(refs, hand)
    case Found(v) => Sweep(v, refs, {})
    case Go(r, h) =>
      if hand < |refs| then
        ClearOne(refs, hand);
        var s := DoSweep(r, h);
        s.(passed := s.passed + {hand})
      else DoSweep(r, h)
  }

  /** One round of a sweep, seen from outside. */
  lemma SweepRound(refs: seq<bool>, hand: nat)
    requires |refs| >= 2 && hand <= |refs|
    ensures hand == |refs| ==> DoSweep(refs, hand) == DoSweep(refs, 1)
    ensures hand < |refs| && !refs[hand] ==> DoSweep(refs, hand) == Sweep(hand, refs, {})
    ensures hand < |refs| && refs[hand] ==>
      var s := DoSweep(refs[hand := false], hand + 1);
      DoSweep(refs, hand) == s.(passed := s.passed + {hand})
  {
    hide Trues;
  }

  lemma HaltsRound(refs: seq<bool>, hand: nat, n: nat)
    ensures hand >= |refs| && Halts(refs, 1, n) ==> Halts(refs, hand, n + 1)
    ensures hand < |refs| && !refs[hand] ==> Halts(refs, hand, 1)
    ensures hand < |refs| && refs[hand] && Halts(refs[hand := false], hand + 1, n) ==> Halts(refs, hand, n + 1)
  {
  }

  /** The first frame at or after `i` with a clear bit. */
  function FirstClear(refs: seq<bool>, i: nat): (r: Option<nat>)
    requires i <= |refs|
    ensures r.Some? ==> i <= r.value < |refs| && !refs[r.value] && forall j | i <= j < r.value :: refs[j]
    ensures r.None? ==> forall j | i <= j < |refs| :: refs[j]
    decreases |refs| - i
  {
    if i == |refs| then None else if !refs[i] then Some(i) else FirstClear(refs, i + 1)
  }

  /** If some frame from the hand on has a clear bit, the first such frame is the victim, and the
      hand reaches it directly. */
  lemma {:induction false} SweepAhead(refs: seq<bool>, hand: nat)
    requires |refs| >= 2 && hand <= |refs| && FirstClear(refs, hand).Some?
    ensures var v := FirstClear(refs, hand).value;
      DoSweep(refs, hand).victim == v && Halts(refs, hand, v - hand + 1)
    decreases |refs| - hand
  {
    hide DoSweep, Halts;
    SweepRound(refs, hand);
    HaltsRound(refs, hand, FirstClear(refs, hand).value - hand);
    if refs[hand] {
      var v := FirstClear(refs, hand).value;
      var r := refs[hand := false];
      SameClear(refs, r, hand + 1, v);
      SweepAhead(r, hand + 1);
    }
  }

  lemma SameClear(a: seq<bool>, b: seq<bool>, i: nat, v: nat)
    requires |a| == |b| && i <= |a| && FirstClear(a, i) == Some(v)
    requires forall j | i <= j < |a| :: a[j] == b[j]
    ensures FirstClear(b, i) == Some(v)
  {
  }

  /** Bits from `hand` on cleared. */
  function ClearFrom(refs: seq<bool>, hand: nat): (r: seq<bool>)
    ensures |r| == |refs|
    ensures forall f | 0 <= f < |r| :: r[f] == (refs[f] && f < hand)
  {
    seq(|refs|, f requires 0 <= f < |refs| => refs[f] && f < hand)
  }

  /** If every bit from the hand on is set, the sweep clears them all and starts again at frame 1. */
  lemma {:induction false} SweepWraps(refs: seq<bool>, hand: nat, n: nat)
    requires |refs| >= 2 && hand <= |refs| && FirstClear(refs, hand).None?
    ensures DoSweep(refs, hand).victim == DoSweep(ClearFrom(refs, hand), 1).victim
    ensures Halts(ClearFrom(refs, hand), 1, n) ==> Halts(refs, hand, n + |refs| - hand + 1)
    decreases |refs| - hand
  {
    hide DoSweep, Halts;
    SweepRound(refs, hand);
    if hand < |refs| {
      var r := refs[hand := false];
      assert ClearFrom(r, hand + 1) == ClearFrom(refs, hand);
      assert FirstClear(r, hand + 1).None?;
      SweepWraps(r, hand + 1, n);
      HaltsRound(refs, hand, n + |refs| - hand);
    } else {
      assert ClearFrom(refs, hand) == refs;
      HaltsRound(refs, hand, n);
    }
  }

  /** Which frame CLOCK evicts, in closed form: the first clear bit from the hand on; if there is none,
      the first frame from 1 on that is clear or that the hand has just cleared. */
  function ClockVictim(refs: seq<bool>, hand: nat): Option<nat>
    requires |refs| >= 2 && hand < |refs|
  {
    if FirstClear(refs, hand).Some? then FirstClear(refs, hand) else FirstClear(ClearFrom(refs, hand), 1)
  }

  lemma {:induction false} MoreRounds(refs: seq<bool>, hand: nat, a: nat, b: nat)
    requires a <= b && Halts(refs, hand, a)
    ensures Halts(refs, hand, b)
    decreases a
  {
    var t := DoTick(refs, hand);
    if t.Go? {
      MoreRounds(t.refs, t.hand, a - 1, b - 1);
    }
  }

  /** With at least two frames the sweep ends within memsize + 2 rounds, whatever the bits. */
  lemma SweepEnds(refs: seq<bool>, hand: nat)
    requires |refs| >= 2 && hand < |refs|
    ensures ClockVictim(refs, hand) == Some(DoSweep(refs, hand).victim)
    ensures Halts(refs, hand, |refs| + 2)
  {
    hide DoSweep, Halts;
    var m := |refs|;
    if FirstClear(refs, hand).Some? {
      SweepAhead(refs, hand);
      MoreRounds(refs, hand, FirstClear(refs, hand).value - hand + 1, m + 2);
    } else {
      var r := ClearFrom(refs, hand);
      assert !r[if hand == 0 then 1 else hand];
      SweepAhead(r, 1);
      var v := FirstClear(r, 1).value;
      SweepWraps(refs, hand, v);
      MoreRounds(refs, hand, v + m - hand + 1, m + 2);
    }
  }

  lemma {:induction false} OneFrameLoops(n: nat)
    ensures !Halts([false], 1, n)
  {
    if n > 0 {
      OneFrameLoops(n - 1);
    }
  }

  /** The loop ends at all. */
  ghost predicate Terminates(refs: seq<bool>, hand: nat) {
    exists n: nat :: Halts(refs, hand, n)
  }

  lemma HaltsMeansTerminates(refs: seq<bool>, hand: nat, n: nat)
    requires Halts(refs, hand, n)
    ensures Terminates(refs, hand)
  {
  }

  /** The sweep ends if and only if there are two frames or the only frame's bit is clear. */
  lemma SweepEndsIff(refs: seq<bool>, hand: nat)
    requires hand < |refs|
    ensures Terminates(refs, hand) <==> |refs| >= 2 || !refs[0]
  {
    if |refs| >= 2 {
      SweepEnds(refs, hand);
      HaltsMeansTerminates(refs, hand, |refs| + 2);
    } else if refs[0] {
      assert refs[0 := false] == [false];
      forall n: nat ensures !Halts(refs, hand, n) {
        if n > 0 {
          OneFrameLoops(n - 1);
        }
      }
    } else {
      HaltsMeansTerminates(refs, hand, 1);
    }
  }

  // ------------------------------------------------------------ CLOCK runs

  /** The pages held by a set of frames. */
  function PagesHeld(owner: seq<Option<nat>>, frames: set<nat>): set<nat> {
    set f | f in frames && f < |owner| && owner[f].Some? :: owner[f].value
  }

  lemma PagesHeldByMore(owner: seq<Option<nat>>, frames: set<nat>, f: nat)
    requires f < |owner| && owner[f].Some?
    ensures PagesHeld(owner, frames + {f}) == PagesHeld(owner, frames) + {owner[f].value}
  {
  }

  /** No two frames hold the same page, so the pages tell the frames. */
  lemma PagesTellFrames(s: State, frames: set<nat>)
    requires Inv(s)
    ensures forall f | 0 <= f < |s.owner| && s.owner[f].Some? ::
      s.owner[f].value in PagesHeld(s.owner, frames) <==> f in frames
  {
  }

  /** The reference bits clock_evict looks at, frame by frame. */
  function RefBits(s: State): (refs: seq<bool>)
    ensures |refs| == |s.owner|
  {
    seq(|s.owner|, f requires 0 <= f < |s.owner| =>
      s.owner[f].Some? && s.owner[f].value < |s.table| && s.table[s.owner[f].value].ref)
  }

  /** The frames the hand passes over during a reference. */
  function Passed(s: State, r: Ref, hand: nat): set<nat> {
    if Evicts(s, r) && |s.owner| >= 2 && hand < |s.owner| then DoSweep(RefBits(s), hand).passed else {}
  }

  /** One reference under CLOCK: `d` is what clock_evict answers and `next` where it leaves the hand. */
  ghost predicate ClockStep(s: State, r: Ref, d: Decision, hand: nat, next: nat)
    requires Inv(s)
  {
    && hand < |s.owner|
    && if Evicts(s, r) then
         && |s.owner| >= 2
         && d.victim == DoSweep(RefBits(s), hand).victim == next
         && forall f | 0 <= f < |s.owner| && s.owner[f].Some? ::
              s.owner[f].value in d.cleared <==> f in Passed(s, r, hand)
       else next == hand
  }

  /** A run in which every victim and every cleared bit is CLOCK's; the hand starts at frame 0. */
  ghost predicate IsClockRun(ss: seq<State>, trace: seq<Ref>, ds: seq<Decision>, hands: seq<nat>) {
    && IsRun(ss, trace, ds)
    && |hands| == |ss| && hands[0] == 0
    && forall i: nat | i < |trace| :: ClockAt(ss, trace, ds, hands, i)
  }

  ghost predicate ClockAt(ss: seq<State>, trace: seq<Ref>, ds: seq<Decision>, hands: seq<nat>, i: nat)
    requires |ss| == |hands| == |trace| + 1 == |ds| + 1 && i < |trace|
  {
    Inv(ss[i]) && ClockStep(ss[i], trace[i], ds[i], hands[i], hands[i + 1])
  }

  /** Page `p` has been referenced since the hand last passed frame `f`, told from the trace and the
      hand's moves alone. */
  function RefSincePass(ss: seq<State>, trace: seq<Ref>, hands: seq<nat>, f: nat, p: nat, n: nat): bool
    requires |ss| == |hands| == |trace| + 1 && n <= |trace|
  {
    n > 0 &&
    (PageOf(trace[n - 1].vaddr) == p ||
     (RefSincePass(ss, trace, hands, f, p, n - 1) && f !in Passed(ss[n - 1], trace[n - 1], hands[n - 1])))
  }

  /** One reference moves the bits of the frames as the hand and the reference say. */
  lemma ClockStepBits(s: State, r: Ref, d: Decision, t: State, hand: nat, next: nat, f: nat)
    requires Next(s, r, d, t) && ClockStep(s, r, d, hand, next)
    requires f < |t.owner| && t.owner[f].Some?
    ensures Inv(t) && |t.owner| == |s.owner|
    ensures var p := t.owner[f].value;
      && (p != PageOf(r.vaddr) ==> s.owner[f] == Some(p))
      && (RefBits(t)[f] <==> p == PageOf(r.vaddr) || (RefBits(s)[f] && f !in Passed(s, r, hand)))
  {
    hide Step;
    StepKeepsInv(s, r, d, t);
    StepOwners(s, r, d, t);
    StepEntries(s, r, d, t, t.owner[f].value);
  }

  /** In every reachable state a resident page has its reference bit clear only after the hand passed
      its frame without the page being referenced again. */
  lemma {:induction false} ClearMeansPassed(
      ss: seq<State>, trace: seq<Ref>, ds: seq<Decision>, hands: seq<nat>,
      swapSize: nat, junk: seq<Content>, f: nat, n: nat)
    requires IsClockRun(ss, trace, ds, hands) && ss[0] == Initial(swapSize, junk)
    requires n <= |trace| && f < |ss[n].owner| && ss[n].owner[f].Some?
    ensures RefBits(ss[n])[f] <==> RefSincePass(ss, trace, hands, f, ss[n].owner[f].value, n)
  {
    hide Next, ClockStep, RefBits, Passed, Inv;
    if n > 0 {
      assert StepAt(ss, trace, ds, n - 1) && ClockAt(ss, trace, ds, hands, n - 1);
      ClockStepBits(ss[n - 1], trace[n - 1], ds[n - 1], ss[n], hands[n - 1], hands[n], f);
      var p := ss[n].owner[f].value;
      if p != PageOf(trace[n - 1].vaddr) {
        ClearMeansPassed(ss, trace, ds, hands, swapSize, junk, f, n - 1);
      }
    }
  }

  /** Second chance: over every run, CLOCK evicts a page only if the hand has passed its frame since
      the page was last referenced, be it earlier or in the very sweep that evicts it. */
  lemma SecondChance(
      ss: seq<State>, trace: seq<Ref>, ds: seq<Decision>, hands: seq<nat>,
      swapSize: nat, junk: seq<Content>, n: nat)
    requires IsClockRun(ss, trace, ds, hands) && ss[0] == Initial(swapSize, junk) && n < |trace|
    requires Evicts(ss[n], trace[n])
    ensures var v := ds[n].victim;
      && v < |ss[n].owner| && ss[n].owner[v].Some?
      && (!RefSincePass(ss, trace, hands, v, ss[n].owner[v].value, n) || v in Passed(ss[n], trace[n], hands[n]))
  {
    hide Next;
    assert ClockAt(ss, trace, ds, hands, n);
    var v := ds[n].victim;
    ClearMeansPassed(ss, trace, ds, hands, swapSize, junk, v, n);
  }

  /** While the hand stands at frame 0, nothing has been evicted and every bit is set. */
  ghost predicate HandOk(s: State, hand: nat) {
    hand == 0 ==> forall f | 0 <= f < |s.owner| && s.owner[f].Some? :: RefBits(s)[f]
  }

  lemma HandStep(s: State, r: Ref, d: Decision, t: State, hand: nat, next: nat)
    requires Next(s, r, d, t) && ClockStep(s, r, d, hand, next) && HandOk(s, hand)
    ensures HandOk(t, next)
    ensures Evicts(s, r) ==> d.victim != 0
  {
    hide Next, RefBits;
    assert Evicts(s, r) ==> next != 0;
    if next == 0 {
      forall f | 0 <= f < |t.owner| && t.owner[f].Some? ensures RefBits(t)[f] {
        ClockStepBits(s, r, d, t, hand, next, f);
      }
    }
  }

  /** With one frame the first eviction never ends: after every run, under any policy, a reference that
      needs a victim finds the only frame's bit set. */
  lemma OneFrameNeverEnds(
      ss: seq<State>, trace: seq<Ref>, ds: seq<Decision>, swapSize: nat, junk: seq<Content>, r: Ref)
    requires IsRun(ss, trace, ds) && ss[0] == Initial(swapSize, junk) && |junk| == 1
    requires Evicts(ss[|trace|], r)
    ensures RefBits(ss[|trace|]) == [true] && !Terminates(RefBits(ss[|trace|]), 0)
  {
    hide Next, Terminates;
    var n, s := |trace|, ss[|trace|];
    assert n > 0;
    assert StepAt(ss, trace, ds, n - 1);
    RunKeepsInv(ss, trace, ds, n);
    StepOwners(ss[n - 1], trace[n - 1], ds[n - 1], s);
    StepEntries(ss[n - 1], trace[n - 1], ds[n - 1], s, PageOf(trace[n - 1].vaddr));
    assert s.table[PageOf(trace[n - 1].vaddr)].frame == 0;
    SweepEndsIff(RefBits(s), 0);
  }

  /** When that is, told by the trace: with one frame a reference needs a victim if and only if it leaves the
      page of the reference before it. */
  lemma OneFrameEvictsIff(
      ss: seq<State>, trace: seq<Ref>, ds: seq<Decision>, swapSize: nat, junk: seq<Content>, r: Ref)
    requires IsRun(ss, trace, ds) && ss[0] == Initial(swapSize, junk) && |junk| == 1
    requires r.vaddr < ADDRESS_LIMIT
    ensures Evicts(ss[|trace|], r) <==>
            trace != [] && PageOf(trace[|trace| - 1].vaddr) != PageOf(r.vaddr)
  {
    hide Next;
    var n, s := |trace|, ss[|trace|];
    IndicesNameThePage(r.vaddr, r.vaddr);
    RunKeepsInv(ss, trace, ds, n);
    if n > 0 {
      assert StepAt(ss, trace, ds, n - 1);
      StepOwners(ss[n - 1], trace[n - 1], ds[n - 1], s);
      StepEntries(ss[n - 1], trace[n - 1], ds[n - 1], s, PageOf(trace[n - 1].vaddr));
      assert s.owner[0] == Some(PageOf(trace[n - 1].vaddr));
    }
  }

  /** So with one frame CLOCK gets through no trace but those that stay on one page. */
  lemma {:induction false} OneFrameOnePage(
      ss: seq<State>, trace: seq<Ref>, ds: seq<Decision>, hands: seq<nat>,
      swapSize: nat, junk: seq<Content>, i: nat)
    requires IsClockRun(ss, trace, ds, hands) && ss[0] == Initial(swapSize, junk) && |junk| == 1
    requires i < |trace|
    ensures PageOf(trace[i].vaddr) == PageOf(trace[0].vaddr)
  {
    hide Next, PageOf;
    if i > 0 {
      OneFrameOnePage(ss, trace, ds, hands, swapSize, junk, i - 1);
      RunPrefix(ss, trace, ds, i);
      RunKeepsInv(ss, trace, ds, i);
      assert StepAt(ss, trace, ds, i) && ClockAt(ss, trace, ds, hands, i);
      StepOwners(ss[i], trace[i], ds[i], ss[i + 1]);
      AddressInRange(ss[i], trace[i], ds[i], ss[i + 1]);
      OneFrameEvictsIff(ss[..i + 1], trace[..i], ds[..i], swapSize, junk, trace[i]);
    }
  }

  lemma AddressInRange(s: State, r: Ref, d: Decision, t: State)
    requires Next(s, r, d, t)
    ensures r.vaddr < ADDRESS_LIMIT
  {
  }

  /** Once a victim has been chosen the hand stays off frame 0, and frame 0 is never the victim. */
  lemma {:induction false} FrameZeroStays(
      ss: seq<State>, trace: seq<Ref>, ds: seq<Decision>, hands: seq<nat>,
      swapSize: nat, junk: seq<Content>, n: nat)
    requires IsClockRun(ss, trace, ds, hands) && ss[0] == Initial(swapSize, junk) && n <= |trace|
    ensures HandOk(ss[n], hands[n])
    ensures n < |trace| && Evicts(ss[n], trace[n]) ==> 0 < ds[n].victim == hands[n + 1] < |junk|
    ensures n < |trace| && hands[n] != 0 ==> 0 < hands[n + 1] < |junk|
  {
    hide Next, Inv;
    if n > 0 {
      FrameZeroStays(ss, trace, ds, hands, swapSize, junk, n - 1);
      assert StepAt(ss, trace, ds, n - 1) && ClockAt(ss, trace, ds, hands, n - 1);
      HandStep(ss[n - 1], trace[n - 1], ds[n - 1], ss[n], hands[n - 1], hands[n]);
    }
    if n < |trace| {
      RunKeepsInv(ss, trace, ds, n);
      assert StepAt(ss, trace, ds, n) && ClockAt(ss, trace, ds, hands, n);
      HandStep(ss[n], trace[n], ds[n], ss[n + 1], hands[n], hands[n + 1]);
    }
  }
}
