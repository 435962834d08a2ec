/** Paging as memory: frames, swap and zero-fill together behave like a flat array of pages
    that forgets a page exactly when it is evicted with its dirty bit clear. */
module FlatMemory {
  import opened Options
  import opened Addresses
  import opened Paging
  import opened Runs

  /** The content a page has, wherever it is kept; None if its next reference zero-fills it. */
  function View(s: State, p: nat): Option<Content>
    requires Inv(s) && p < PAGES
  {
    var e := s.table[p];
    if e.valid then Some(s.mem[e.frame]) else if e.onSwap then Some(s.swap[SlotAt(e.swapOff)]) else None
  }

  /** The page a reference forgets: the victim, when it is evicted through the clean branch. */
  function Loss(s: State, vaddr: nat, d: Decision): Option<nat> {
    if && PageOf(vaddr) < |s.table| && !s.table[PageOf(vaddr)].valid && FreeFrame(s.owner, 0).None?
       && d.victim < |s.owner| && s.owner[d.victim].Some? && s.owner[d.victim].value < |s.table|
       && !s.table[s.owner[d.victim].value].dirty
    then s.owner[d.victim]
    else None
  }

  /** The content a reference to `vaddr` finds in a flat memory. */
  function Found(c: Option<Content>, vaddr: nat): Content {
    if c.Some? then c.value else Content(0, vaddr)
  }

  function Bump(c: Content, kind: char): Content {
    if IsWrite(kind) then c.(version := c.version + 1) else c
  }

  lemma SweepKeepsViews(s: State, pages: set<nat>, q: nat)
    requires Inv(s) && q < PAGES
    ensures View(Sweep(s, pages), q) == View(s, q)
  {
  }

  /** A dirty victim keeps its content, a clean one loses it, and no other page is affected. */
  /** The slot a page is written to is not the slot of another page. */
  lemma OtherSlot(s: State, p: nat, q: nat)
    requires Inv(s) && p < PAGES && q < PAGES && q != p && HasSlot(s.table[q]) && SlotFor(s, s.table[p]).Some?
    ensures s.table[q].swapOff >= 0 && SlotAt(s.table[q].swapOff) in s.swap
    ensures SlotAt(s.table[q].swapOff) != SlotFor(s, s.table[p]).value
  {
    hide Flagged;
  }

  lemma EvictViews(s: State, f: nat, q: nat)
    requires Inv(s) && f < |s.owner| && s.owner[f].Some? && q < PAGES
    requires Evict(s, f).Some?
    ensures var p := s.owner[f].value;
      View(Evict(s, f).value, q) == if q == p && !s.table[p].dirty then None else View(s, q)
  {
    hide Evict, Slotted;
    var p := s.owner[f].value;
    EvictForm(s, f);
    if s.table[p].dirty && q != p && s.table[q].onSwap {
      OtherSlot(s, p, q);
    }
  }

  lemma LoadViews(s: State, f: nat, vaddr: nat, q: nat)
    requires Inv(s) && vaddr < ADDRESS_LIMIT && !s.table[PageOf(vaddr)].valid
    requires f < |s.owner| && s.owner[f].None? && q < PAGES
    ensures View(Load(s, f, vaddr), q) ==
      if q == PageOf(vaddr) then Some(Found(View(s, q), vaddr)) else View(s, q)
  {
  }

  lemma TouchViews(s: State, vaddr: nat, kind: char, q: nat)
    requires Inv(s) && vaddr < ADDRESS_LIMIT && s.table[PageOf(vaddr)].valid && q < PAGES
    ensures View(Touch(s, vaddr, kind), q) ==
      if q == PageOf(vaddr) then Some(Bump(View(s, q).value, kind)) else View(s, q)
  {
  }

  lemma VacateViews(s: State, vaddr: nat, d: Decision, q: nat)
    requires Inv(s) && vaddr < ADDRESS_LIMIT && d.victim < |s.owner| && q < PAGES
    requires !s.table[PageOf(vaddr)].valid && Vacate(s, d).Some?
    ensures View(Vacate(s, d).value.0, q) == if Loss(s, vaddr, d) == Some(q) then None else View(s, q)
  {
    hide Evict, View, Slotted;
    if FreeFrame(s.owner, 0).None? {
      SweepKeepsViews(s, d.cleared, q);
      EvictViews(Sweep(s, d.cleared), d.victim, q);
    }
  }

  /** One reference, for every state, policy answer and page: the referenced page is found and
      maybe bumped, the page lost to a clean eviction becomes zero-fill, all others keep their content. */
  lemma StepIsFlat(s: State, kind: char, vaddr: nat, d: Decision, q: nat)
    requires Inv(s) && vaddr < ADDRESS_LIMIT && d.victim < |s.owner| && q < PAGES
    requires Step(s, kind, vaddr, d).Some?
    ensures var p := PageOf(vaddr);
      var a := Step(s, kind, vaddr, d).value;
      && a.version == Found(View(s, p), vaddr).version
      && a.tagOk == (Found(View(s, p), vaddr).tag == vaddr)
      && Loss(s, vaddr, d) != Some(p)
      && View(a.state, q) ==
           if q == p then Some(Bump(Found(View(s, p), vaddr), kind))
           else if Loss(s, vaddr, d) == Some(q) then None
           else View(s, q)
  {
    var p := PageOf(vaddr);
    var s1 := Fetch(s, vaddr, d).value;
    if !s.table[p].valid {
      var (s0, f) := Vacate(s, d).value;
      VacateViews(s, vaddr, d, p);
      VacateViews(s, vaddr, d, q);
      LoadViews(s0, f, vaddr, p);
      LoadViews(s0, f, vaddr, q);
    }
    TouchViews(s1, vaddr, kind, q);
  }

  // ------------------------------------------------------------ whole runs

  /** The page each reference of a run forgets, if any. */
  function Losses(ss: seq<State>, trace: seq<Ref>, ds: seq<Decision>): (lost: seq<Option<nat>>)
    requires |ss| == |trace| + 1 == |ds| + 1
    ensures |lost| == |trace|
  {
    seq(|trace|, i requires 0 <= i < |trace| => Loss(ss[i], trace[i].vaddr, ds[i]))
  }

  predicate WritesPage(r: Ref, p: nat) {
    PageOf(r.vaddr) == p && IsWrite(r.kind)
  }

  /** How often the first `n` references write page `p`. */
  function Writes(trace: seq<Ref>, p: nat, n: nat): nat
    requires n <= |trace|
  {
    if n == 0 then 0 else Writes(trace, p, n - 1) + (if WritesPage(trace[n - 1], p) then 1 else 0)
  }

  /** How often they write it after it was last lost. */
  function WritesSince(trace: seq<Ref>, lost: seq<Option<nat>>, p: nat, n: nat): nat
    requires n <= |trace| == |lost|
  {
    if n == 0 then 0 else
    (if lost[n - 1] == Some(p) then 0 else WritesSince(trace, lost, p, n - 1)) +
    (if WritesPage(trace[n - 1], p) then 1 else 0)
  }

  /** The address that first referenced page `p` after it was last lost: the one its frame was
      zero-filled for. None while the page waits for its zero-fill. */
  function FilledFor(trace: seq<Ref>, lost: seq<Option<nat>>, p: nat, n: nat): Option<nat>
    requires n <= |trace| == |lost|
  {
    if n == 0 then None else
    var before := if lost[n - 1] == Some(p) then None else FilledFor(trace, lost, p, n - 1);
    if before.None? && PageOf(trace[n - 1].vaddr) == p then Some(trace[n - 1].vaddr) else before
  }

  /** Version word of a page, zero if it is kept nowhere. */
  function Version(s: State, p: nat): int
    requires Inv(s) && p < PAGES
  {
    if View(s, p).Some? then View(s, p).value.version else 0
  }

  lemma {:induction false} NothingWrittenUnfilled(trace: seq<Ref>, lost: seq<Option<nat>>, p: nat, n: nat)
    requires n <= |trace| == |lost| && FilledFor(trace, lost, p, n).None?
    ensures WritesSince(trace, lost, p, n) == 0
  {
    if n > 0 && lost[n - 1] != Some(p) {
      NothingWrittenUnfilled(trace, lost, p, n - 1);
    }
  }

  /** What the history of a run says a page should hold. */
  function Recorded(trace: seq<Ref>, lost: seq<Option<nat>>, p: nat, n: nat): Option<Content>
    requires n <= |trace| == |lost|
  {
    match FilledFor(trace, lost, p, n)
    case None => None
    case Some(a) => Some(Content(WritesSince(trace, lost, p, n), a))
  }

  lemma RecordedStep(trace: seq<Ref>, lost: seq<Option<nat>>, p: nat, n: nat)
    requires n < |trace| == |lost|
    requires lost[n] != Some(PageOf(trace[n].vaddr))
    ensures Recorded(trace, lost, p, n + 1) ==
      if p == PageOf(trace[n].vaddr) then Some(Bump(Found(Recorded(trace, lost, p, n), trace[n].vaddr), trace[n].kind))
      else if lost[n] == Some(p) then None
      else Recorded(trace, lost, p, n)
  {
    if FilledFor(trace, lost, p, n).None? {
      NothingWrittenUnfilled(trace, lost, p, n);
    }
  }

  lemma NextIsFlat(s: State, r: Ref, d: Decision, t: State, q: nat)
    requires Next(s, r, d, t) && q < PAGES
    ensures Inv(t) && Loss(s, r.vaddr, d) != Some(PageOf(r.vaddr))
    ensures View(t, q) ==
      if q == PageOf(r.vaddr) then Some(Bump(Found(View(s, q), r.vaddr), r.kind))
      else if Loss(s, r.vaddr, d) == Some(q) then None
      else View(s, q)
  {
    StepIsFlat(s, r.kind, r.vaddr, d, q);
  }

  lemma InitiallyUnfilled(swapSize: nat, junk: seq<Content>, p: nat)
    requires p < PAGES
    ensures View(Initial(swapSize, junk), p) == None
  {
  }

  /** Over every run, what a page holds is decided by the trace and its losses alone: the writes
      and the first address since it was last lost. It is zero-filled again exactly after a loss. */
  lemma {:induction false} ContentOverRun(
      ss: seq<State>, trace: seq<Ref>, ds: seq<Decision>, swapSize: nat, junk: seq<Content>, p: nat, n: nat)
    requires IsRun(ss, trace, ds) && ss[0] == Initial(swapSize, junk) && p < PAGES && n <= |trace|
    ensures Inv(ss[n]) && View(ss[n], p) == Recorded(trace, Losses(ss, trace, ds), p, n)
  {
    hide Next, View, Initial, Inv;
    if n == 0 {
      InitiallyUnfilled(swapSize, junk, p);
    } else {
      ContentOverRun(ss, trace, ds, swapSize, junk, p, n - 1);
      assert StepAt(ss, trace, ds, n - 1);
      NextIsFlat(ss[n - 1], trace[n - 1], ds[n - 1], ss[n], p);
      RecordedStep(trace, Losses(ss, trace, ds), p, n - 1);
    }
  }
}
