/** Runs that only read: they need no swap, so that every choice of victims makes a run. */
module ReadRuns {
  import opened Options
  import opened Addresses
  import opened Paging
  import opened Runs
  import opened Residency
  import opened Optimal
  import opened Policies

  function Reads(pages: seq<nat>): (trace: seq<Ref>)
    ensures |trace| == |pages|
    ensures Pages(trace) == pages
  {
    seq(|pages|, i requires 0 <= i < |pages| => Ref('L', pages[i] * PAGE_SIZE))
  }

  predicate ValidAreClean(s: State) {
    forall p | 0 <= p < |s.table| && s.table[p].valid :: !s.table[p].dirty
  }

  /** A clean memory needs no swap for a read, and stays clean. */
  lemma ReadSucceeds(s: State, r: Ref, d: Decision) returns (t: State)
    requires Inv(s) && ValidAreClean(s) && !IsWrite(r.kind) && r.vaddr < ADDRESS_LIMIT && d.victim < |s.owner|
    ensures Next(s, r, d, t) && Inv(t) && ValidAreClean(t) && |t.owner| == |s.owner|
  {
    hide Step, PageOf;
    StepFails(s, r, d);
    t := Step(s, r.kind, r.vaddr, d).value.state;
    StepKeepsInv(s, r, d, t);
    forall q | 0 <= q < |t.table| && t.table[q].valid ensures !t.table[q].dirty {
      StepEntries(s, r, d, t, q);
    }
  }

  /** Any pages may be read with any victims: without a write the program never runs out of swap. */
  lemma {:induction false} ReadRun(pages: seq<nat>, vs: seq<nat>, junk: seq<Content>, n: nat)
    returns (ss: seq<State>, ds: seq<Decision>, gs: seq<Globals>)
    requires Below(pages, PAGES) && |vs| == |pages| && InRange(vs, |junk|) && n <= |pages|
    ensures IsRunOf(AnyAlg, p => 0, ss, Reads(pages)[..n], ds, gs) && ss[0] == Initial(0, junk)
    ensures |ss[n].owner| == |junk| && Inv(ss[n]) && ValidAreClean(ss[n])
    ensures Victims(ds) == vs[..n] && forall i | 0 <= i < n :: ds[i].cleared == {}
  {
    hide Next, Inv, PageOf;
    if n == 0 {
      ss, ds, gs := [Initial(0, junk)], [], [Globals(0, 0, [])];
    } else {
      ss, ds, gs := ReadRun(pages, vs, junk, n - 1);
      var r, d := Reads(pages)[n - 1], Decision(vs[n - 1], {});
      var t := ReadSucceeds(ss[n - 1], r, d);
      ExtendRun(AnyAlg, p => 0, ss, Reads(pages)[..n - 1], ds, gs, r, d, t, Globals(0, 0, []));
      assert Reads(pages)[..n - 1] + [r] == Reads(pages)[..n];
      ss, ds, gs := ss + [t], ds + [d], gs + [Globals(0, 0, [])];
    }
  }

  /** With one frame, or a frame for every page there is, any two runs on a trace miss equally often. */
  lemma SameMisses(
      trace: seq<Ref>, ss: seq<State>, ds: seq<Decision>, swapSize: nat, junk: seq<Content>,
      ss': seq<State>, ds': seq<Decision>, swapSize': nat, junk': seq<Content>, n: nat)
    requires IsRun(ss, trace, ds) && ss[0] == Initial(swapSize, junk)
    requires IsRun(ss', trace, ds') && ss'[0] == Initial(swapSize', junk')
    requires |junk| == |junk'| && Below(Pages(trace), n) && (|junk| == 1 || n <= |junk|)
    ensures ss[|trace|].count.misses == ss'[|trace|].count.misses
  {
    hide Next, Misses, Initial, Inv, PageOf;
    MissesOverRun(ss, trace, ds, swapSize, junk);
    MissesOverRun(ss', trace, ds', swapSize', junk');
    NoChoice([], Pages(trace), Victims(ds), Victims(ds'), |junk|, n);
  }
}
