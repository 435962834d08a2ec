/** Which pages are in memory, frame by frame: all that the number of misses depends on. */
module Residency {
  import opened Options
  import opened Addresses
  import opened Paging
  import opened Runs
  import opened Bookkeeping

  ghost predicate Distinct(f: seq<nat>) {
    forall i, j | 0 <= i < j < |f| :: f[i] != f[j]
  }

  /** One reference: a hit changes nothing, a miss takes the next free frame or the victim's. */
  function Refer(f: seq<nat>, p: nat, victim: nat, m: nat): (r: seq<nat>)
    requires |f| <= m && victim < m
    ensures |f| <= |r| <= m && p in r
    ensures Distinct(f) ==> Distinct(r)
  {
    if p in f then f
    else if |f| < m then f + [p]
    else assert f[victim := p][victim] == p; f[victim := p]
  }

  predicate InRange(victims: seq<nat>, m: nat) {
    forall i | 0 <= i < |victims| :: victims[i] < m
  }

  /** How often a run over `pages` misses, starting with `f` in memory. */
  function Misses(f: seq<nat>, pages: seq<nat>, victims: seq<nat>, m: nat): nat
    requires |f| <= m && |victims| == |pages| && InRange(victims, m)
    decreases |pages|
  {
    if pages == [] then 0 else
    (if pages[0] in f then 0 else 1) + Misses(Refer(f, pages[0], victims[0], m), pages[1..], victims[1..], m)
  }

  // ------------------------------------------------- the simulator's misses

  function Pages(trace: seq<Ref>): (pages: seq<nat>)
    ensures |pages| == |trace|
  {
    seq(|trace|, i requires 0 <= i < |trace| => PageOf(trace[i].vaddr))
  }

  function Victims(ds: seq<Decision>): (victims: seq<nat>)
    ensures |victims| == |ds|
  {
    seq(|ds|, i requires 0 <= i < |ds| => ds[i].victim)
  }

  /** The pages held by the frames below the first free one. */
  function Loaded(owner: seq<Option<nat>>): (f: seq<nat>)
    ensures |f| <= |owner|
    ensures forall i | 0 <= i < |f| :: owner[i] == Some(f[i])
  {
    var used := if FreeFrame(owner, 0).Some? then FreeFrame(owner, 0).value else |owner|;
    seq(used, i requires 0 <= i < used => owner[i].value)
  }

  lemma LoadedSize(s: State)
    requires Counted(s)
    ensures |Loaded(s.owner)| == Min(|s.owner|, s.count.misses)
  {
    var used := Min(|s.owner|, s.count.misses);
    assert used < |s.owner| ==> s.owner[used].None?;
  }

  lemma ValidIsLoaded(s: State, p: nat)
    requires Inv(s) && Counted(s) && p < PAGES
    ensures s.table[p].valid <==> p in Loaded(s.owner)
    ensures Distinct(Loaded(s.owner))
  {
    if s.table[p].valid {
      assert s.owner[s.table[p].frame].Some?;
      assert Loaded(s.owner)[s.table[p].frame] == p;
    }
  }

  lemma LoadedAfter(s: State, t: State, p: nat, d: Decision)
    requires Counted(s) && Counted(t) && d.victim < |s.owner| && FrameFor(s, d) < |s.owner|
    requires t.owner == s.owner[FrameFor(s, d) := Some(p)] && t.count.misses == s.count.misses + 1
    ensures Loaded(t.owner) ==
      if |Loaded(s.owner)| < |s.owner| then Loaded(s.owner) + [p] else Loaded(s.owner)[d.victim := p]
  {
    var a, b := Loaded(s.owner), Loaded(t.owner);
    LoadedSize(s);
    LoadedSize(t);
  }

  /** The simulator's frames and miss counter follow `Refer`. */
  lemma StepLoaded(s: State, r: Ref, d: Decision, t: State)
    requires Next(s, r, d, t) && Counted(s)
    ensures Counted(t) && |t.owner| == |s.owner| && d.victim < |s.owner|
    ensures Loaded(t.owner) == Refer(Loaded(s.owner), PageOf(r.vaddr), d.victim, |s.owner|)
    ensures t.count.misses == s.count.misses + (if PageOf(r.vaddr) in Loaded(s.owner) then 0 else 1)
  {
    hide Step;
    StepCounts(s, r, d, t);
    StepOwners(s, r, d, t);
    ValidIsLoaded(s, PageOf(r.vaddr));
    if !s.table[PageOf(r.vaddr)].valid {
      LoadedAfter(s, t, PageOf(r.vaddr), d);
    }
  }

  lemma MissesTail(f: seq<nat>, trace: seq<Ref>, ds: seq<Decision>, i: nat, m: nat)
    requires |trace| == |ds| && i < |trace| && |f| <= m && ds[i].victim < m && InRange(Victims(ds)[i + 1..], m)
    ensures InRange(Victims(ds)[i..], m)
    ensures Misses(f, Pages(trace)[i..], Victims(ds)[i..], m) ==
      (if PageOf(trace[i].vaddr) in f then 0 else 1) +
      Misses(Refer(f, PageOf(trace[i].vaddr), ds[i].victim, m), Pages(trace)[i + 1..], Victims(ds)[i + 1..], m)
  {
    assert Victims(ds)[i..] == [ds[i].victim] + Victims(ds)[i + 1..];
    assert Pages(trace)[i..] == [PageOf(trace[i].vaddr)] + Pages(trace)[i + 1..];
  }

  /** From any state of a run to its end, the miss counter grows by exactly `Misses`. */
  lemma {:induction false} MissesFrom(
      ss: seq<State>, trace: seq<Ref>, ds: seq<Decision>, i: nat)
    requires IsRun(ss, trace, ds) && i <= |trace| && Counted(ss[i])
    ensures |Loaded(ss[i].owner)| <= |ss[0].owner| && InRange(Victims(ds)[i..], |ss[0].owner|)
    ensures ss[|trace|].count.misses == ss[i].count.misses +
              Misses(Loaded(ss[i].owner), Pages(trace)[i..], Victims(ds)[i..], |ss[0].owner|)
    decreases |trace| - i
  {
    hide Next, Loaded, Inv, Counted, Refer, Pages, Victims;
    RunKeepsInv(ss, trace, ds, i);
    if i < |trace| {
      assert StepAt(ss, trace, ds, i);
      StepLoaded(ss[i], trace[i], ds[i], ss[i + 1]);
      MissesFrom(ss, trace, ds, i + 1);
      MissesTail(Loaded(ss[i].owner), trace, ds, i, |ss[0].owner|);
    }
  }

  /** Over a run from the start, the miss counter is the number of misses of an empty memory. */
  lemma MissesOverRun(
      ss: seq<State>, trace: seq<Ref>, ds: seq<Decision>, swapSize: nat, junk: seq<Content>)
    requires IsRun(ss, trace, ds) && ss[0] == Initial(swapSize, junk)
    ensures InRange(Victims(ds), |junk|)
    ensures ss[|trace|].count.misses == Misses([], Pages(trace), Victims(ds), |junk|)
  {
    CountersOverRun(ss, trace, ds, swapSize, junk, 0);
    MissesFrom(ss, trace, ds, 0);
    assert Loaded(ss[0].owner) == [];
    assert Pages(trace)[0..] == Pages(trace) && Victims(ds)[0..] == Victims(ds);
  }
}
