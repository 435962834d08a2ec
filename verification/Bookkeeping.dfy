/** What the counters and the swap bitmap say, in every reachable state. */
module Bookkeeping {
  import opened Options
  import opened Addresses
  import opened Paging
  import opened Runs

  // ------------------------------------------------------------- counters

  function Min(a: nat, b: nat): nat {
    if a < b then a else b
  }

  /** Frames are in use from the bottom up, as many as there were misses, up to all of them; the
      misses beyond those each evicted a page; hits and misses add up to the references. */
  predicate Counted(s: State) {
    var c, used := s.count, Min(|s.owner|, s.count.misses);
    && (forall f | 0 <= f < |s.owner| :: s.owner[f].Some? <==> f < used)
    && c.hits + c.misses == c.refs
    && used + c.clean + c.dirty == c.misses
  }

  /** An eviction is counted once, as clean or dirty: a resident page is never marked on swap, so
      the guard on PG_ONSWAP always lets it through. */
  lemma EvictCounts(s: State, f: nat)
    requires Inv(s) && f < |s.owner| && s.owner[f].Some? && Evict(s, f).Some?
    ensures var c, e := Evict(s, f).value.count, s.table[s.owner[f].value];
      && !e.onSwap
      && c == if e.dirty then s.count.(dirty := s.count.dirty + 1) else s.count.(clean := s.count.clean + 1)
  {
  }

  lemma VacateCounts(s: State, d: Decision)
    requires Inv(s) && d.victim < |s.owner| && Vacate(s, d).Some?
    ensures var c := Vacate(s, d).value.0.count;
      if FreeFrame(s.owner, 0).Some? then c == s.count
      else if s.table[s.owner[d.victim].value].dirty then c == s.count.(dirty := s.count.dirty + 1)
      else c == s.count.(clean := s.count.clean + 1)
  {
    hide Evict;
    if FreeFrame(s.owner, 0).None? {
      EvictCounts(Sweep(s, d.cleared), d.victim);
    }
  }

  lemma StepCounts(s: State, r: Ref, d: Decision, t: State)
    requires Next(s, r, d, t) && Counted(s)
    ensures Counted(t) && t.count.refs == s.count.refs + 1
  {
    hide Step, Vacate, Flagged, Slotted, PageOf;
    StepOwners(s, r, d, t);
    if s.table[PageOf(r.vaddr)].valid {
      AfterHit(s, r, d, t);
    } else {
      AfterMiss(s, r, d, t);
      VacateCounts(s, d);
      var used := Min(|s.owner|, s.count.misses);
      assert FreeFrame(s.owner, 0).Some? ==> FrameFor(s, d) == used < |s.owner|;
      assert FreeFrame(s.owner, 0).None? ==> used == |s.owner|;
    }
  }

  lemma {:induction false} CountersOverRun(
      ss: seq<State>, trace: seq<Ref>, ds: seq<Decision>, swapSize: nat, junk: seq<Content>, n: nat)
    requires IsRun(ss, trace, ds) && ss[0] == Initial(swapSize, junk) && n <= |trace|
    ensures Counted(ss[n]) && ss[n].count.refs == n
  {
    hide Next, Inv;
    if n > 0 {
      CountersOverRun(ss, trace, ds, swapSize, junk, n - 1);
      assert StepAt(ss, trace, ds, n - 1);
      StepCounts(ss[n - 1], trace[n - 1], ds[n - 1], ss[n]);
    }
  }

  // ----------------------------------------------------------- swap slots

  lemma EvictSlot(s: State, f: nat, q: nat)
    requires Inv(s) && f < |s.owner| && s.owner[f].Some? && Evict(s, f).Some?
    requires q < PAGES && HasSlot(s.table[q])
    ensures Evict(s, f).value.table[q].swapOff == s.table[q].swapOff
  {
  }

  lemma VacateSlot(s: State, d: Decision, q: nat)
    requires Inv(s) && d.victim < |s.owner| && Vacate(s, d).Some?
    requires q < PAGES && HasSlot(s.table[q])
    ensures Vacate(s, d).value.0.table[q].swapOff == s.table[q].swapOff
  {
    hide Evict;
    if FreeFrame(s.owner, 0).None? {
      EvictSlot(Sweep(s, d.cleared), d.victim, q);
    }
  }

  /** A page keeps its swap slot for ever. */
  lemma StepSlot(s: State, r: Ref, d: Decision, t: State, q: nat)
    requires Next(s, r, d, t) && q < PAGES
    ensures Sized(s) && Sized(t)
    ensures HasSlot(s.table[q]) ==> t.table[q].swapOff == s.table[q].swapOff
  {
    hide Step, Vacate;
    StepKeepsInv(s, r, d, t);
    if s.table[PageOf(r.vaddr)].valid {
      AfterHit(s, r, d, t);
    } else {
      AfterMiss(s, r, d, t);
      if HasSlot(s.table[q]) {
        VacateSlot(s, d, q);
      }
    }
  }

  lemma {:induction false} SlotsAreStable(ss: seq<State>, trace: seq<Ref>, ds: seq<Decision>, q: nat, i: nat, j: nat)
    requires IsRun(ss, trace, ds) && q < PAGES && i <= j <= |trace|
    ensures Sized(ss[i]) && Sized(ss[j])
    ensures HasSlot(ss[i].table[q]) ==> ss[j].table[q].swapOff == ss[i].table[q].swapOff
  {
    hide Next;
    if i < j {
      SlotsAreStable(ss, trace, ds, q, i, j - 1);
      assert StepAt(ss, trace, ds, j - 1);
      StepSlot(ss[j - 1], trace[j - 1], ds[j - 1], ss[j], q);
    } else {
      RunKeepsInv(ss, trace, ds, i);
    }
  }

  /** The pages that have ever been written to swap. */
  function SlotOwners(s: State): set<nat>
    requires |s.table| == PAGES
  {
    set p: nat | p < PAGES && HasSlot(s.table[p])
  }

  lemma {:induction false} SameSize(m: map<nat, nat>)
    requires forall a, b | a in m && b in m && m[a] == m[b] :: a == b
    ensures |m.Keys| == |m.Values|
    decreases |m|
  {
    if m.Keys != {} {
      var a :| a in m;
      var rest := m - {a};
      assert rest.Keys == m.Keys - {a};
      forall v | v in m.Values - {m[a]} ensures v in rest.Values {
        var b :| b in m && m[b] == v;
        assert b in rest;
      }
      assert rest.Values == m.Values - {m[a]};
      SameSize(rest);
    }
  }

  /** The slot page `p` owns; only meaningful if it owns one. */
  function SlotOf(s: State, p: nat): nat
    requires p < |s.table|
  {
    if HasSlot(s.table[p]) && s.table[p].swapOff >= 0 then SlotAt(s.table[p].swapOff) else 0
  }

  lemma SlotFacts(s: State, p: nat, q: nat)
    requires Slotted(s) && p < |s.table| && q < |s.table| && HasSlot(s.table[p]) && HasSlot(s.table[q])
    ensures SlotOf(s, p) in s.taken
    ensures SlotOf(s, p) == SlotOf(s, q) ==> p == q
  {
  }

  lemma OwnerOf(s: State, k: nat) returns (p: nat)
    requires Slotted(s) && k in s.taken
    ensures p < |s.table| && HasSlot(s.table[p]) && SlotOf(s, p) == k
  {
    p :| p < |s.table| && OwnsSlot(s, p, k);
  }

  lemma SlotMap(s: State) returns (m: map<nat, nat>)
    requires Slotted(s) && |s.table| == PAGES
    ensures m.Keys == SlotOwners(s)
    ensures forall k | k in s.taken :: k in m.Values
    ensures forall k | k in m.Values :: k in s.taken
    ensures forall a, b | a in m && b in m && m[a] == m[b] :: a == b
  {
    hide Slotted, SlotOf;
    m := map p: nat | p in SlotOwners(s) :: SlotOf(s, p);
    forall a, b | a in m && b in m ensures m[a] in s.taken && (m[a] == m[b] ==> a == b) {
      SlotFacts(s, a, b);
    }
    forall k | k in s.taken ensures k in m.Values {
      var p := OwnerOf(s, k);
      assert p in m && m[p] == k;
    }
  }

  /** Every marked slot has exactly one owner: there are as many owners as marked slots. */
  lemma OneOwnerPerSlot(s: State)
    requires Inv(s)
    ensures |SlotOwners(s)| == |s.taken|
  {
    var m := SlotMap(s);
    SameSize(m);
    assert m.Values == s.taken;
  }

  lemma {:induction false} AllBelow(s: set<nat>, n: nat)
    requires forall k | k in s :: k < n
    ensures |s| <= n
    ensures (forall k: nat | k < n :: k in s) <==> |s| == n
  {
    if n == 0 {
      assert s == {};
    } else {
      AllBelow(s - {n - 1}, n - 1);
    }
  }

  /** The program runs out of swap exactly when a dirty victim without a slot meets `swapSize`
      other pages that own one each. */
  lemma OutOfSwapMeansFull(s: State, d: Decision)
    requires Inv(s) && d.victim < |s.owner|
    ensures OutOfSwap(s, d) <==>
      && FreeFrame(s.owner, 0).None?
      && s.table[s.owner[d.victim].value].dirty
      && |SlotOwners(s) - {s.owner[d.victim].value}| == s.swapSize
  {
    OneOwnerPerSlot(s);
    AllBelow(s.taken, s.swapSize);
    if FreeFrame(s.owner, 0).None? {
      var p := s.owner[d.victim].value;
      if HasSlot(s.table[p]) {
        assert p in SlotOwners(s);
        assert |SlotOwners(s) - {p}| == |SlotOwners(s)| - 1;
      } else {
        assert SlotOwners(s) - {p} == SlotOwners(s);
      }
    }
  }

  // ------------------------------------------------------ reachable states

  /** In every reachable state, under any policy: frames in use and valid entries pair off one to one; a
      valid entry is not on swap, an entry on swap is clean and has an offset; and the marked slots are
      exactly the offsets of entries, one entry each. */
  lemma ReachableState(
      ss: seq<State>, trace: seq<Ref>, ds: seq<Decision>, n: nat)
    requires IsRun(ss, trace, ds) && n <= |trace|
    ensures Sized(ss[n])
    ensures var s := ss[n];
      && (forall f: nat, p: nat | f < |s.owner| && p < PAGES ::
            s.owner[f] == Some(p) <==> s.table[p].valid && s.table[p].frame == f)
      && (forall f: nat | f < |s.owner| && s.owner[f].Some? :: s.owner[f].value < PAGES)
      && (forall p: nat | p < PAGES && s.table[p].valid :: s.table[p].frame < |s.owner| && !s.table[p].onSwap)
      && (forall p: nat | p < PAGES && s.table[p].onSwap :: !s.table[p].dirty && HasSlot(s.table[p]))
      && (forall k: nat :: k in s.taken <==> k < s.swapSize && exists p: nat | p < PAGES :: OwnsSlot(s, p, k))
      && (forall k: nat, p: nat, q: nat | p < PAGES && q < PAGES && OwnsSlot(s, p, k) && OwnsSlot(s, q, k) :: p == q)
  {
    hide Next;
    RunKeepsInv(ss, trace, ds, n);
    var s := ss[n];
    forall k: nat, p: nat | p < PAGES && OwnsSlot(s, p, k) ensures k in s.taken {
      assert SlotAt(s.table[p].swapOff) == k;
    }
  }
}
