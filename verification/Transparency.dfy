/** When paging is invisible: the exact condition under which every version word equals the
    number of writes so far, and the address check of access_mem. */
module Transparency {
  import opened Options
  import opened Addresses
  import opened Paging
  import opened Runs
  import opened FlatMemory

  /** What reference `i` of a run sees. */
  function Seen(ss: seq<State>, trace: seq<Ref>, ds: seq<Decision>, i: nat): Access
    requires |ss| == |trace| + 1 == |ds| + 1 && i < |trace| && StepAt(ss, trace, ds, i)
  {
    Step(ss[i], trace[i].kind, trace[i].vaddr, ds[i]).value
  }

  /** Every reference of every run sees the writes since its page was last lost, and passes the
      address check exactly if it is the first since then or names the same address as the first. */
  lemma SeenOverRun(
      ss: seq<State>, trace: seq<Ref>, ds: seq<Decision>, swapSize: nat, junk: seq<Content>, i: nat)
    requires IsRun(ss, trace, ds) && ss[0] == Initial(swapSize, junk) && i < |trace|
    ensures StepAt(ss, trace, ds, i)
    ensures var lost, p := Losses(ss, trace, ds), PageOf(trace[i].vaddr);
      && Seen(ss, trace, ds, i).version == WritesSince(trace, lost, p, i)
      && (Seen(ss, trace, ds, i).tagOk <==>
            FilledFor(trace, lost, p, i).None? || FilledFor(trace, lost, p, i) == Some(trace[i].vaddr))
  {
    hide Step, View;
    var lost, p := Losses(ss, trace, ds), PageOf(trace[i].vaddr);
    assert StepAt(ss, trace, ds, i);
    assert p < PAGES;
    ContentOverRun(ss, trace, ds, swapSize, junk, p, i);
    if FilledFor(trace, lost, p, i).None? {
      NothingWrittenUnfilled(trace, lost, p, i);
    }
    StepIsFlat(ss[i], trace[i].kind, trace[i].vaddr, ds[i], p);
  }

  lemma {:induction false} WritesGrow(trace: seq<Ref>, p: nat, i: nat, n: nat)
    requires i <= n <= |trace|
    ensures Writes(trace, p, i) <= Writes(trace, p, n)
  {
    if i < n {
      WritesGrow(trace, p, i, n - 1);
    }
  }

  /** The count since the last loss is the full count exactly if the page was never lost after a write. */
  lemma {:induction false} SinceLossIsAll(trace: seq<Ref>, lost: seq<Option<nat>>, p: nat, n: nat)
    requires n <= |trace| == |lost|
    ensures WritesSince(trace, lost, p, n) <= Writes(trace, p, n)
    ensures WritesSince(trace, lost, p, n) == Writes(trace, p, n) <==>
            forall j | 0 <= j < n && lost[j] == Some(p) :: Writes(trace, p, j) == 0
  {
    if n > 0 {
      SinceLossIsAll(trace, lost, p, n - 1);
      if lost[n - 1] == Some(p) && Writes(trace, p, n - 1) == 0 {
        forall j | 0 <= j < n && lost[j] == Some(p) ensures Writes(trace, p, j) == 0 {
          WritesGrow(trace, p, j, n - 1);
        }
      }
    }
  }

  /** A reference sees all earlier writes to its page if and only if no earlier clean eviction
      hit the page after it had been written. */
  lemma SeesEveryWrite(
      ss: seq<State>, trace: seq<Ref>, ds: seq<Decision>, swapSize: nat, junk: seq<Content>, i: nat)
    requires IsRun(ss, trace, ds) && ss[0] == Initial(swapSize, junk) && i < |trace|
    ensures StepAt(ss, trace, ds, i)
    ensures var p, lost := PageOf(trace[i].vaddr), Losses(ss, trace, ds);
      Seen(ss, trace, ds, i).version == Writes(trace, p, i) <==>
      forall j | 0 <= j < i && lost[j] == Some(p) :: Writes(trace, p, j) == 0
  {
    hide Next, Seen, Step, Loss, Losses, Initial, Inv, PageOf;
    SeenOverRun(ss, trace, ds, swapSize, junk, i);
    SinceLossIsAll(trace, Losses(ss, trace, ds), PageOf(trace[i].vaddr), i);
  }

  /** The guard that decides it: a reference evicts a page with its dirty bit clear only if the
      version word in the victim's frame is zero. */
  predicate Harmless(s: State, r: Ref, d: Decision) {
    Loss(s, r.vaddr, d).Some? ==> d.victim < |s.mem| && s.mem[d.victim].version == 0
  }

  /** At every moment of the run every page holds the number of writes to it so far. */
  ghost predicate Transparent(ss: seq<State>, trace: seq<Ref>) {
    && |ss| == |trace| + 1
    && (forall n | 0 <= n < |ss| :: Inv(ss[n]))
    && forall n, p | 0 <= n < |ss| && 0 <= p < PAGES :: Version(ss[n], p) == Writes(trace, p, n)
  }

  lemma LossIsVictim(s: State, vaddr: nat, d: Decision)
    requires Inv(s) && Loss(s, vaddr, d).Some?
    ensures var p := Loss(s, vaddr, d).value;
      p < PAGES && d.victim < |s.mem| && View(s, p) == Some(s.mem[d.victim])
  {
  }

  lemma {:induction false} HarmlessKeepsCount(
      ss: seq<State>, trace: seq<Ref>, ds: seq<Decision>, swapSize: nat, junk: seq<Content>, p: nat, n: nat)
    requires IsRun(ss, trace, ds) && ss[0] == Initial(swapSize, junk) && p < PAGES && n <= |trace|
    requires forall i | 0 <= i < |trace| :: Harmless(ss[i], trace[i], ds[i])
    ensures WritesSince(trace, Losses(ss, trace, ds), p, n) == Writes(trace, p, n)
  {
    hide Next, Loss, Initial, Inv;
    if n > 0 {
      HarmlessKeepsCount(ss, trace, ds, swapSize, junk, p, n - 1);
      if Loss(ss[n - 1], trace[n - 1].vaddr, ds[n - 1]) == Some(p) {
        ContentOverRun(ss, trace, ds, swapSize, junk, p, n - 1);
        LossIsVictim(ss[n - 1], trace[n - 1].vaddr, ds[n - 1]);
        assert Harmless(ss[n - 1], trace[n - 1], ds[n - 1]);
      }
    }
  }

  lemma CountMeansHarmless(
      ss: seq<State>, trace: seq<Ref>, ds: seq<Decision>, i: nat)
    requires IsRun(ss, trace, ds) && Transparent(ss, trace) && i < |trace|
    ensures Harmless(ss[i], trace[i], ds[i])
  {
    var d := ds[i];
    if Loss(ss[i], trace[i].vaddr, d).Some? {
      var p := Loss(ss[i], trace[i].vaddr, d).value;
      assert StepAt(ss, trace, ds, i);
      LossIsVictim(ss[i], trace[i].vaddr, d);
      NextIsFlat(ss[i], trace[i], d, ss[i + 1], p);
      assert Version(ss[i], p) == Writes(trace, p, i);
      assert Version(ss[i + 1], p) == Writes(trace, p, i + 1);
    }
  }

  lemma HarmlessMeansCount(
      ss: seq<State>, trace: seq<Ref>, ds: seq<Decision>, swapSize: nat, junk: seq<Content>, p: nat, n: nat)
    requires IsRun(ss, trace, ds) && ss[0] == Initial(swapSize, junk) && p < PAGES && n <= |trace|
    requires forall i | 0 <= i < |trace| :: Harmless(ss[i], trace[i], ds[i])
    ensures Inv(ss[n]) && Version(ss[n], p) == Writes(trace, p, n)
  {
    hide Next, Loss, Losses, View, Initial, Inv;
    var lost := Losses(ss, trace, ds);
    HarmlessKeepsCount(ss, trace, ds, swapSize, junk, p, n);
    ContentOverRun(ss, trace, ds, swapSize, junk, p, n);
    if FilledFor(trace, lost, p, n).None? {
      NothingWrittenUnfilled(trace, lost, p, n);
    }
  }

  /** Paging is flat memory, for every policy, memory size and trace, if and only if no reference
      evicts a page with its dirty bit clear and a nonzero version word. */
  lemma TransparentIff(
      ss: seq<State>, trace: seq<Ref>, ds: seq<Decision>, swapSize: nat, junk: seq<Content>)
    requires IsRun(ss, trace, ds) && ss[0] == Initial(swapSize, junk)
    ensures Transparent(ss, trace) <==> forall i | 0 <= i < |trace| :: Harmless(ss[i], trace[i], ds[i])
  {
    hide Next, Loss, Version, Initial, Inv;
    if Transparent(ss, trace) {
      forall i | 0 <= i < |trace| ensures Harmless(ss[i], trace[i], ds[i]) {
        CountMeansHarmless(ss, trace, ds, i);
      }
    }
    if forall i | 0 <= i < |trace| :: Harmless(ss[i], trace[i], ds[i]) {
      forall n | 0 <= n < |ss| ensures Inv(ss[n]) {
        HarmlessMeansCount(ss, trace, ds, swapSize, junk, 0, n);
      }
      forall n, p | 0 <= n < |ss| && 0 <= p < PAGES ensures Version(ss[n], p) == Writes(trace, p, n) {
        HarmlessMeansCount(ss, trace, ds, swapSize, junk, p, n);
      }
    }
  }

  // ------------------------------------------- the condition, from history

  /** Page `p` has been written since it was last brought in. */
  function WrittenSinceLoad(ss: seq<State>, trace: seq<Ref>, p: nat, n: nat): bool
    requires |ss| == |trace| + 1 && n <= |trace|
  {
    n > 0 &&
    if PageOf(trace[n - 1].vaddr) == p
    then IsWrite(trace[n - 1].kind) || (Resident(ss[n - 1], p) && WrittenSinceLoad(ss, trace, p, n - 1))
    else WrittenSinceLoad(ss, trace, p, n - 1)
  }

  predicate Resident(s: State, p: nat) {
    p < |s.table| && s.table[p].valid
  }

  lemma NothingResident(swapSize: nat, junk: seq<Content>, p: nat)
    ensures !Resident(Initial(swapSize, junk), p)
  {
  }

  /** The dirty bit of a resident page tells whether it was written since it was last brought in. */
  lemma {:induction false} DirtyMeansWritten(
      ss: seq<State>, trace: seq<Ref>, ds: seq<Decision>, swapSize: nat, junk: seq<Content>, p: nat, n: nat)
    requires IsRun(ss, trace, ds) && ss[0] == Initial(swapSize, junk) && p < PAGES && n <= |trace|
    ensures Inv(ss[n])
    ensures Resident(ss[n], p) ==> (ss[n].table[p].dirty <==> WrittenSinceLoad(ss, trace, p, n))
  {
    hide Next, PageOf, IsWrite, FreeFrame, Inv, Initial;
    if n == 0 {
      NothingResident(swapSize, junk, p);
    } else {
      DirtyMeansWritten(ss, trace, ds, swapSize, junk, p, n - 1);
      assert StepAt(ss, trace, ds, n - 1);
      StepOwners(ss[n - 1], trace[n - 1], ds[n - 1], ss[n]);
      StepEntries(ss[n - 1], trace[n - 1], ds[n - 1], ss[n], p);
    }
  }

  /** The reference takes page `p` out of memory. */
  predicate EvictsPage(s: State, r: Ref, d: Decision, p: nat) {
    Evicts(s, r) && d.victim < |s.owner| && s.owner[d.victim] == Some(p)
  }

  /** A reference forgets exactly the page it evicts unwritten since it was brought in. */
  lemma LossFromHistory(
      ss: seq<State>, trace: seq<Ref>, ds: seq<Decision>, swapSize: nat, junk: seq<Content>, p: nat, i: nat)
    requires IsRun(ss, trace, ds) && ss[0] == Initial(swapSize, junk) && p < PAGES && i < |trace|
    ensures Losses(ss, trace, ds)[i] == Some(p) <==>
            EvictsPage(ss[i], trace[i], ds[i], p) && !WrittenSinceLoad(ss, trace, p, i)
  {
    hide Next, PageOf, WrittenSinceLoad;
    DirtyMeansWritten(ss, trace, ds, swapSize, junk, p, i);
  }

  /** Reference `i` evicts no page that was written at some time but not since it was last brought in. */
  ghost predicate ForgetsNoWrite(ss: seq<State>, trace: seq<Ref>, ds: seq<Decision>, i: nat)
    requires |ss| == |trace| + 1 == |ds| + 1 && i < |trace|
  {
    forall p: nat | p < PAGES && EvictsPage(ss[i], trace[i], ds[i], p) && !WrittenSinceLoad(ss, trace, p, i) ::
      Writes(trace, p, i) == 0
  }

  lemma HarmlessFromHistory(
      ss: seq<State>, trace: seq<Ref>, ds: seq<Decision>, swapSize: nat, junk: seq<Content>, i: nat)
    requires IsRun(ss, trace, ds) && ss[0] == Initial(swapSize, junk) && i < |trace|
    requires ForgetsNoWrite(ss, trace, ds, i)
    ensures Harmless(ss[i], trace[i], ds[i])
  {
    hide Next, View, Initial, Inv, Loss, EvictsPage, WrittenSinceLoad;
    if Loss(ss[i], trace[i].vaddr, ds[i]).Some? {
      var p, lost := Loss(ss[i], trace[i].vaddr, ds[i]).value, Losses(ss, trace, ds);
      ContentOverRun(ss, trace, ds, swapSize, junk, 0, i);
      LossIsVictim(ss[i], trace[i].vaddr, ds[i]);
      LossFromHistory(ss, trace, ds, swapSize, junk, p, i);
      ContentOverRun(ss, trace, ds, swapSize, junk, p, i);
      SinceLossIsAll(trace, lost, p, i);
    }
  }

  /** The same condition told by the references and evictions of the run alone: paging is flat memory if
      and only if no page with earlier writes is evicted without a write since it was last brought in. */
  lemma TransparentFromHistory(
      ss: seq<State>, trace: seq<Ref>, ds: seq<Decision>, swapSize: nat, junk: seq<Content>)
    requires IsRun(ss, trace, ds) && ss[0] == Initial(swapSize, junk)
    ensures Transparent(ss, trace) <==> forall i: nat | i < |trace| :: ForgetsNoWrite(ss, trace, ds, i)
  {
    hide Next, View, Version, Initial, Inv, Loss, EvictsPage, WrittenSinceLoad;
    TransparentIff(ss, trace, ds, swapSize, junk);
    if Transparent(ss, trace) {
      forall i: nat | i < |trace| ensures ForgetsNoWrite(ss, trace, ds, i) {
        TransparentForgetsNoWrite(ss, trace, ds, swapSize, junk, i);
      }
    }
    if forall i: nat | i < |trace| :: ForgetsNoWrite(ss, trace, ds, i) {
      forall i | 0 <= i < |trace| ensures Harmless(ss[i], trace[i], ds[i]) {
        HarmlessFromHistory(ss, trace, ds, swapSize, junk, i);
      }
    }
  }

  lemma TransparentForgetsNoWrite(
      ss: seq<State>, trace: seq<Ref>, ds: seq<Decision>, swapSize: nat, junk: seq<Content>, i: nat)
    requires IsRun(ss, trace, ds) && ss[0] == Initial(swapSize, junk) && i < |trace| && Transparent(ss, trace)
    ensures ForgetsNoWrite(ss, trace, ds, i)
  {
    hide Next, View, Initial, EvictsPage, WrittenSinceLoad, Loss;
    forall p: nat | p < PAGES && EvictsPage(ss[i], trace[i], ds[i], p) && !WrittenSinceLoad(ss, trace, p, i)
      ensures Writes(trace, p, i) == 0
    {
      LossFromHistory(ss, trace, ds, swapSize, junk, p, i);
      LossIsVictim(ss[i], trace[i].vaddr, ds[i]);
      CountMeansHarmless(ss, trace, ds, i);
      assert Version(ss[i], p) == Writes(trace, p, i);
    }
  }

  // ----------------------------------------------------- all-write traces

  predicate ValidAreDirty(s: State) {
    forall p | 0 <= p < |s.table| && s.table[p].valid :: s.table[p].dirty
  }

  lemma WriteKeepsDirty(s: State, r: Ref, d: Decision, t: State)
    requires Next(s, r, d, t) && IsWrite(r.kind) && ValidAreDirty(s)
    ensures ValidAreDirty(t)
  {
    StepKeepsInv(s, r, d, t);
    forall q | 0 <= q < |t.table| && t.table[q].valid ensures t.table[q].dirty {
      StepEntries(s, r, d, t, q);
    }
  }

  lemma {:induction false} AllWritesDirty(
      ss: seq<State>, trace: seq<Ref>, ds: seq<Decision>, swapSize: nat, junk: seq<Content>, n: nat)
    requires IsRun(ss, trace, ds) && ss[0] == Initial(swapSize, junk) && n <= |trace|
    requires forall i | 0 <= i < |trace| :: IsWrite(trace[i].kind)
    ensures ValidAreDirty(ss[n])
  {
    hide Next;
    if n > 0 {
      AllWritesDirty(ss, trace, ds, swapSize, junk, n - 1);
      assert StepAt(ss, trace, ds, n - 1);
      WriteKeepsDirty(ss[n - 1], trace[n - 1], ds[n - 1], ss[n]);
    }
  }

  /** On a trace of writes only, paging is always transparent. */
  lemma AllWritesTransparent(
      ss: seq<State>, trace: seq<Ref>, ds: seq<Decision>, swapSize: nat, junk: seq<Content>)
    requires IsRun(ss, trace, ds) && ss[0] == Initial(swapSize, junk)
    requires forall i | 0 <= i < |trace| :: IsWrite(trace[i].kind)
    ensures Transparent(ss, trace)
  {
    forall i | 0 <= i < |trace| ensures Harmless(ss[i], trace[i], ds[i]) {
      AllWritesDirty(ss, trace, ds, swapSize, junk, i);
      assert StepAt(ss, trace, ds, i);
      if Loss(ss[i], trace[i].vaddr, ds[i]).Some? {
        LossIsVictim(ss[i], trace[i].vaddr, ds[i]);
      }
    }
    TransparentIff(ss, trace, ds, swapSize, junk);
  }

  // ---------------------------------------------------- the address check

  lemma {:induction false} FilledForAligned(trace: seq<Ref>, lost: seq<Option<nat>>, p: nat, n: nat)
    requires n <= |trace| == |lost|
    requires forall i | 0 <= i < |trace| :: trace[i].vaddr % PAGE_SIZE == 0
    requires forall i | 0 <= i < |trace| :: trace[i].vaddr < ADDRESS_LIMIT
    ensures match FilledFor(trace, lost, p, n)
      case None => true
      case Some(a) => a < ADDRESS_LIMIT && a % PAGE_SIZE == 0 && PageOf(a) == p
  {
    hide PageOf;
    if n > 0 {
      FilledForAligned(trace, lost, p, n - 1);
    }
  }

  /** On a trace of page-aligned addresses the check in access_mem never fails, under any policy. */
  lemma TagCheckNeverFails(
      ss: seq<State>, trace: seq<Ref>, ds: seq<Decision>, swapSize: nat, junk: seq<Content>, i: nat)
    requires IsRun(ss, trace, ds) && ss[0] == Initial(swapSize, junk) && i < |trace|
    requires forall j | 0 <= j < |trace| :: trace[j].vaddr % PAGE_SIZE == 0
    ensures StepAt(ss, trace, ds, i)
    ensures Seen(ss, trace, ds, i).tagOk
  {
    hide Step, Losses, Initial, Inv, PageOf, DirIndex, TblIndex;
    var lost, x := Losses(ss, trace, ds), trace[i].vaddr;
    forall j | 0 <= j < |trace| ensures trace[j].vaddr < ADDRESS_LIMIT {
      assert StepAt(ss, trace, ds, j);
    }
    SeenOverRun(ss, trace, ds, swapSize, junk, i);
    FilledForAligned(trace, lost, PageOf(x), i);
    match FilledFor(trace, lost, PageOf(x), i)
    case None =>
    case Some(a) =>
      IndicesNameThePage(a, x);
      AlignedIndicesNameTheAddress(a, x);
  }

  /** Reference `i` of the run passes the address check. */
  ghost predicate TagOkAt(ss: seq<State>, trace: seq<Ref>, ds: seq<Decision>, i: nat)
    requires |ss| == |trace| + 1 == |ds| + 1 && i < |trace|
  {
    StepAt(ss, trace, ds, i) && Seen(ss, trace, ds, i).tagOk
  }

  /** Adding a reference to a run leaves the earlier checks alone. */
  lemma EarlierTags(ss: seq<State>, trace: seq<Ref>, ds: seq<Decision>, t: State, r: Ref, d: Decision)
    requires |ss| == |trace| + 1 == |ds| + 1
    ensures forall i: nat | i < |trace| ::
      TagOkAt(ss + [t], trace + [r], ds + [d], i) <==> TagOkAt(ss, trace, ds, i)
  {
    hide Next, Step;
    var ss', trace', ds' := ss + [t], trace + [r], ds + [d];
    forall i: nat | i < |trace| ensures TagOkAt(ss', trace', ds', i) <==> TagOkAt(ss, trace, ds, i) {
      assert ss'[i] == ss[i] && ss'[i + 1] == ss[i + 1] && trace'[i] == trace[i] && ds'[i] == ds[i];
    }
  }

  lemma LastTag(ss: seq<State>, trace: seq<Ref>, ds: seq<Decision>, t: State, r: Ref, d: Decision)
    requires |ss| == |trace| + 1 == |ds| + 1 && Next(ss[|trace|], r, d, t)
    ensures TagOkAt(ss + [t], trace + [r], ds + [d], |trace|) <==> Step(ss[|trace|], r.kind, r.vaddr, d).value.tagOk
  {
    hide Step;
  }

  /** The references whose address check fails. */
  ghost function Failing(ss: seq<State>, trace: seq<Ref>, ds: seq<Decision>): set<nat>
    requires |ss| == |trace| + 1 == |ds| + 1
  {
    set i: nat | i < |trace| && !TagOkAt(ss, trace, ds, i)
  }

  lemma NothingFailing(s: State)
    ensures Failing([s], [], []) == {}
  {
  }

  /** One more reference adds itself if its check fails. */
  lemma OneMoreTag(ss: seq<State>, trace: seq<Ref>, ds: seq<Decision>, t: State, r: Ref, d: Decision)
    requires |ss| == |trace| + 1 == |ds| + 1 && Next(ss[|trace|], r, d, t)
    ensures var ok := Step(ss[|trace|], r.kind, r.vaddr, d).value.tagOk;
      && Failing(ss + [t], trace + [r], ds + [d]) == Failing(ss, trace, ds) + (if ok then {} else {|trace|})
      && |trace| !in Failing(ss, trace, ds)
  {
    hide Step, TagOkAt;
    EarlierTags(ss, trace, ds, t, r, d);
    LastTag(ss, trace, ds, t, r, d);
  }

  lemma NoTagFails(
      ss: seq<State>, trace: seq<Ref>, ds: seq<Decision>, swapSize: nat, junk: seq<Content>)
    requires IsRun(ss, trace, ds) && ss[0] == Initial(swapSize, junk)
    requires forall j | 0 <= j < |trace| :: trace[j].vaddr % PAGE_SIZE == 0
    ensures Failing(ss, trace, ds) == {}
  {
    hide Next, Seen, Initial;
    forall i: nat | i < |trace| ensures TagOkAt(ss, trace, ds, i) {
      TagCheckNeverFails(ss, trace, ds, swapSize, junk, i);
    }
  }
}
