/** How much swap a trace can need: a slot is taken only by a page that was written. */
module SwapUse {
  import opened Options
  import opened Addresses
  import opened Paging
  import opened Runs
  import opened Bookkeeping
  import Optimal

  /** The pages written by the first `n` references. */
  function WrittenPages(trace: seq<Ref>, n: nat): set<nat>
    requires n <= |trace|
  {
    if n == 0 then {}
    else WrittenPages(trace, n - 1) + (if IsWrite(trace[n - 1].kind) then {PageOf(trace[n - 1].vaddr)} else {})
  }

  lemma {:induction false} WrittenPagesGrow(trace: seq<Ref>, i: nat, n: nat)
    requires i <= n <= |trace|
    ensures WrittenPages(trace, i) <= WrittenPages(trace, n)
  {
    if i < n {
      WrittenPagesGrow(trace, i, n - 1);
    }
  }

  lemma {:induction false} WrittenPagesOfPrefix(trace: seq<Ref>, m: nat, n: nat)
    requires n <= m <= |trace|
    ensures WrittenPages(trace[..m], n) == WrittenPages(trace, n)
  {
    if n > 0 {
      WrittenPagesOfPrefix(trace, m, n - 1);
    }
  }

  lemma EvictTakesSlot(s: State, f: nat, q: nat)
    requires Inv(s) && f < |s.owner| && s.owner[f].Some? && Evict(s, f).Some? && q < PAGES
    ensures HasSlot(Evict(s, f).value.table[q]) <==>
      HasSlot(s.table[q]) || (s.owner[f] == Some(q) && s.table[q].dirty)
  {
    hide Evict, Slotted;
    EvictForm(s, f);
  }

  lemma VacateTakesSlot(s: State, d: Decision, q: nat)
    requires Inv(s) && d.victim < |s.owner| && Vacate(s, d).Some? && q < PAGES
    ensures HasSlot(Vacate(s, d).value.0.table[q]) <==>
      HasSlot(s.table[q]) || (FreeFrame(s.owner, 0).None? && s.owner[d.victim] == Some(q) && s.table[q].dirty)
  {
    hide Evict;
    if FreeFrame(s.owner, 0).None? {
      EvictTakesSlot(Sweep(s, d.cleared), d.victim, q);
    }
  }

  /** A page gets its slot when it is first evicted dirty, and in no other way. */
  lemma StepTakesSlot(s: State, r: Ref, d: Decision, t: State, q: nat)
    requires Next(s, r, d, t) && q < PAGES
    ensures Sized(s) && Sized(t)
    ensures HasSlot(t.table[q]) <==>
      HasSlot(s.table[q]) || (Evicts(s, r) && s.owner[d.victim] == Some(q) && s.table[q].dirty)
  {
    hide Step, Vacate;
    StepKeepsInv(s, r, d, t);
    StepOwners(s, r, d, t);
    if s.table[PageOf(r.vaddr)].valid {
      AfterHit(s, r, d, t);
    } else {
      AfterMiss(s, r, d, t);
      VacateTakesSlot(s, d, q);
    }
  }

  /** The page owns a slot, or will need one when it is evicted next. */
  predicate NeedsSlot(s: State, p: nat) {
    p < |s.table| && (HasSlot(s.table[p]) || (s.table[p].valid && s.table[p].dirty))
  }

  lemma NeedsSlotStep(s: State, r: Ref, d: Decision, t: State, p: nat)
    requires Next(s, r, d, t) && p < PAGES && NeedsSlot(t, p)
    ensures NeedsSlot(s, p) || (IsWrite(r.kind) && PageOf(r.vaddr) == p)
  {
    hide Step, Slotted, FreeFrame;
    StepTakesSlot(s, r, d, t, p);
    StepEntries(s, r, d, t, p);
    if s.table[p].dirty && s.owner[d.victim] == Some(p) {
      assert s.table[p].valid;
    }
  }

  /** Only written pages ever need swap. */
  lemma {:induction false} SlotsAreWritten(
      ss: seq<State>, trace: seq<Ref>, ds: seq<Decision>, swapSize: nat, junk: seq<Content>, p: nat, n: nat)
    requires IsRun(ss, trace, ds) && ss[0] == Initial(swapSize, junk) && p < PAGES && n <= |trace|
    requires NeedsSlot(ss[n], p)
    ensures p in WrittenPages(trace, n)
  {
    hide Next, NeedsSlot, Inv;
    if n == 0 {
      NothingNeedsSlot(swapSize, junk, p);
    } else {
      assert StepAt(ss, trace, ds, n - 1);
      NeedsSlotStep(ss[n - 1], trace[n - 1], ds[n - 1], ss[n], p);
      if NeedsSlot(ss[n - 1], p) {
        SlotsAreWritten(ss, trace, ds, swapSize, junk, p, n - 1);
      }
    }
  }

  lemma NothingNeedsSlot(swapSize: nat, junk: seq<Content>, p: nat)
    ensures !NeedsSlot(Initial(swapSize, junk), p)
  {
  }

  /** A state that runs out of swap holds `swapSize` pages with slots and one more that needs a slot. */
  lemma OutOfSwapNeeds(s: State, d: Decision, written: set<nat>)
    requires Inv(s) && d.victim < |s.owner| && OutOfSwap(s, d)
    requires forall p: nat | p < PAGES && NeedsSlot(s, p) :: p in written
    ensures |written| > s.swapSize
  {
    hide Slotted;
    var p := s.owner[d.victim].value;
    OutOfSwapMeansFull(s, d);
    var owners := SlotOwners(s) - {p};
    assert p in written && p !in owners && owners <= written - {p};
    Optimal.SubsetSize(owners, written - {p});
  }

  lemma {:induction false} SwapSizeKept(
      ss: seq<State>, trace: seq<Ref>, ds: seq<Decision>, n: nat)
    requires IsRun(ss, trace, ds) && n <= |trace|
    ensures ss[n].swapSize == ss[0].swapSize
  {
    hide Next;
    if n > 0 {
      SwapSizeKept(ss, trace, ds, n - 1);
      assert StepAt(ss, trace, ds, n - 1);
      SwapSizeStep(ss[n - 1], trace[n - 1], ds[n - 1], ss[n]);
    }
  }

  lemma SwapSizeStep(s: State, r: Ref, d: Decision, t: State)
    requires Next(s, r, d, t)
    ensures t.swapSize == s.swapSize
  {
    hide Evict, Slotted, Flagged;
    if Evicts(s, r) {
      EvictForm(Sweep(s, d.cleared), d.victim);
    }
  }

  /** The program never runs out of swap on a trace that writes at most `swapSize` distinct pages: no state of
      any run, under any policy, has a victim that finds swap full. */
  lemma EnoughSwap(
      ss: seq<State>, trace: seq<Ref>, ds: seq<Decision>, swapSize: nat, junk: seq<Content>, n: nat, d: Decision)
    requires IsRun(ss, trace, ds) && ss[0] == Initial(swapSize, junk) && n <= |trace|
    requires |WrittenPages(trace, n)| <= swapSize && d.victim < |ss[n].owner|
    ensures Inv(ss[n]) && !OutOfSwap(ss[n], d)
  {
    hide Next, Inv, NeedsSlot, OutOfSwap, WrittenPages;
    RunKeepsInv(ss, trace, ds, n);
    SwapSizeKept(ss, trace, ds, n);
    if OutOfSwap(ss[n], d) {
      forall p: nat | p < PAGES && NeedsSlot(ss[n], p) ensures p in WrittenPages(trace, n) {
        SlotsAreWritten(ss, trace, ds, swapSize, junk, p, n);
      }
      OutOfSwapNeeds(ss[n], d, WrittenPages(trace, n));
    }
  }

  /** The swap file is `swapSize` pages of 16 bytes, and every offset in use is one of them: in every state of a run
      the page at it lies inside the file, and no two pages overlap. */
  lemma OffsetsFit(
      ss: seq<State>, trace: seq<Ref>, ds: seq<Decision>, swapSize: nat, junk: seq<Content>, p: nat, q: nat, n: nat)
    requires IsRun(ss, trace, ds) && ss[0] == Initial(swapSize, junk) && n <= |trace|
    requires p < PAGES && q < PAGES && p != q
    ensures Sized(ss[n])
    ensures var x, y := ss[n].table[p].swapOff, ss[n].table[q].swapOff;
      && (x != -1 ==> 0 <= x && x % 16 == 0 && x + 16 <= 16 * swapSize)
      && (x != -1 && y != -1 ==> x + 16 <= y || y + 16 <= x)
  {
    hide Next;
    RunKeepsInv(ss, trace, ds, n);
    SwapSizeKept(ss, trace, ds, n);
    var s := ss[n];
    if HasSlot(s.table[p]) {
      SlotFacts(s, p, p);
      assert SlotOf(s, p) < swapSize && s.table[p].swapOff == SlotOf(s, p) * 16;
      if HasSlot(s.table[q]) {
        SlotFacts(s, p, q);
        assert s.table[q].swapOff == SlotOf(s, q) * 16;
      }
    }
  }
}
