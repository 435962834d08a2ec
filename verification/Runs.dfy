/** Whole runs: replay_trace as a fold of accesses, for every possible sequence of policy answers. */
module Runs {
  import opened Options
  import opened Addresses
  import opened Paging

  /** One trace line. */
  datatype Ref = Ref(kind: char, vaddr: nat)

  /** A line of the trace file: one that starts with '=', or a type with an address if sscanf finds one. */
  datatype TraceLine = Comment | Record(kind: char, vaddr: Option<nat>)

  /** The references the lines stand for. A line without an address repeats the last one read. */
  function RefsFrom(lines: seq<TraceLine>, last: nat): seq<Ref> {
    if lines == [] then [] else
    match lines[0]
    case Comment => RefsFrom(lines[1..], last)
    case Record(kind, vaddr) =>
      var a := if vaddr.Some? then vaddr.value else last;
      [Ref(kind, a)] + RefsFrom(lines[1..], a)
  }

  /** How many of the first `n` lines are references. */
  function Records(lines: seq<TraceLine>, n: nat): nat
    requires n <= |lines|
  {
    if n == 0 then 0 else Records(lines, n - 1) + (if lines[n - 1].Record? then 1 else 0)
  }

  /** The trace is what the lines say, line by line: there is one reference for each line that is no comment,
      at the place the lines before it leave for it, with the line's type and its address, or the address of
      the reference before it if the line has none. */
  ghost predicate Replays(trace: seq<Ref>, lines: seq<TraceLine>, last: nat) {
    && |trace| == Records(lines, |lines|)
    && forall i: nat | i < |lines| && lines[i].Record? :: IsRefOf(trace, lines, last, i, Records(lines, i))
  }

  predicate IsRefOf(trace: seq<Ref>, lines: seq<TraceLine>, last: nat, i: nat, k: nat)
    requires i < |lines| && lines[i].Record?
  {
    && k < |trace|
    && trace[k].kind == lines[i].kind
    && trace[k].vaddr ==
         if lines[i].vaddr.Some? then lines[i].vaddr.value else if k == 0 then last else trace[k - 1].vaddr
  }

  lemma {:induction false} RecordsTail(lines: seq<TraceLine>, n: nat)
    requires lines != [] && n < |lines|
    ensures Records(lines, n + 1) == (if lines[0].Record? then 1 else 0) + Records(lines[1..], n)
  {
    if n > 0 {
      RecordsTail(lines, n - 1);
    } else {
      assert Records(lines, 1) == Records(lines, 0) + (if lines[0].Record? then 1 else 0);
    }
  }

  lemma {:induction false} RecordsGrow(lines: seq<TraceLine>, i: nat, n: nat)
    requires i <= n <= |lines|
    ensures Records(lines, i) <= Records(lines, n)
  {
    if i < n {
      RecordsGrow(lines, i, n - 1);
    }
  }

  /** The references the lines stand for are the only ones that replay them. */
  lemma {:induction false} ReplaysIff(trace: seq<Ref>, lines: seq<TraceLine>, last: nat)
    ensures Replays(trace, lines, last) <==> trace == RefsFrom(lines, last)
    decreases |lines|
  {
    if lines != [] {
      var rest := lines[1..];
      RecordsTail(lines, |rest|);
      if lines[0].Comment? {
        ReplaysIff(trace, rest, last);
        CommentSkipped(trace, lines, last);
      } else if trace != [] {
        var a := if lines[0].vaddr.Some? then lines[0].vaddr.value else last;
        ReplaysIff(trace[1..], rest, a);
        FirstRecord(trace, lines, last, a);
        assert trace == [trace[0]] + trace[1..];
      } else {
        RecordsGrow(lines, 0, |lines|);
      }
    }
  }

  lemma CommentSkipped(trace: seq<Ref>, lines: seq<TraceLine>, last: nat)
    requires lines != [] && lines[0].Comment?
    ensures Replays(trace, lines, last) <==> Replays(trace, lines[1..], last)
  {
    hide Records;
    var rest := lines[1..];
    RecordsTail(lines, |rest|);
    forall i: nat | i < |rest| ensures lines[i + 1] == rest[i] && Records(lines, i + 1) == Records(rest, i) {
      RecordsTail(lines, i);
    }
    if Replays(trace, lines, last) {
      forall i: nat | i < |rest| && rest[i].Record? ensures IsRefOf(trace, rest, last, i, Records(rest, i)) {
        assert IsRefOf(trace, lines, last, i + 1, Records(lines, i + 1));
      }
    }
    if Replays(trace, rest, last) {
      forall i: nat | i < |lines| && lines[i].Record? ensures IsRefOf(trace, lines, last, i, Records(lines, i)) {
        assert IsRefOf(trace, rest, last, i - 1, Records(rest, i - 1));
      }
    }
  }

  lemma FirstRecord(trace: seq<Ref>, lines: seq<TraceLine>, last: nat, a: nat)
    requires trace != [] && lines != [] && lines[0].Record?
    requires a == if lines[0].vaddr.Some? then lines[0].vaddr.value else last
    ensures Replays(trace, lines, last) <==>
      trace[0] == Ref(lines[0].kind, a) && Replays(trace[1..], lines[1..], a)
  {
    hide Records;
    var rest, later := lines[1..], trace[1..];
    RecordsTail(lines, |rest|);
    NoRecords(lines);
    forall i: nat | i < |rest| ensures lines[i + 1] == rest[i] && Records(lines, i + 1) == 1 + Records(rest, i) {
      RecordsTail(lines, i);
    }
    if Replays(trace, lines, last) {
      assert IsRefOf(trace, lines, last, 0, 0);
      forall i: nat | i < |rest| && rest[i].Record? ensures IsRefOf(later, rest, a, i, Records(rest, i)) {
        assert IsRefOf(trace, lines, last, i + 1, Records(lines, i + 1));
      }
    }
    if trace[0] == Ref(lines[0].kind, a) && Replays(later, rest, a) {
      forall i: nat | i < |lines| && lines[i].Record? ensures IsRefOf(trace, lines, last, i, Records(lines, i)) {
        if i > 0 {
          assert IsRefOf(later, rest, a, i - 1, Records(rest, i - 1));
          assert Records(lines, i - 1 + 1) == 1 + Records(rest, i - 1);
        }
      }
    }
  }

  lemma NoRecords(lines: seq<TraceLine>)
    ensures Records(lines, 0) == 0
  {
  }

  /** `t` follows `s` by one access, for an address the page directory covers and a policy
      answer that names a frame. */
  ghost predicate Next(s: State, r: Ref, d: Decision, t: State) {
    && Inv(s)
    && r.vaddr < ADDRESS_LIMIT && d.victim < |s.owner|
    && Step(s, r.kind, r.vaddr, d).Some?
    && Step(s, r.kind, r.vaddr, d).value.state == t
  }

  /** `ss` are the states of a run over `trace` that the policy answers with `ds`: the state
      before the first reference, then the state after each. Where swap runs out there is no
      next state, as there the program exits. */
  ghost predicate IsRun(ss: seq<State>, trace: seq<Ref>, ds: seq<Decision>) {
    && |ss| == |trace| + 1 == |ds| + 1
    && Inv(ss[0])
    && forall i: nat | i < |trace| :: StepAt(ss, trace, ds, i)
  }

  ghost predicate StepAt(ss: seq<State>, trace: seq<Ref>, ds: seq<Decision>, i: nat)
    requires |ss| == |trace| + 1 == |ds| + 1 && i < |trace|
  {
    Next(ss[i], trace[i], ds[i], ss[i + 1])
  }

  /** The reference asks the policy for a victim. */
  predicate Evicts(s: State, r: Ref) {
    PageOf(r.vaddr) < |s.table| && !s.table[PageOf(r.vaddr)].valid && FreeFrame(s.owner, 0).None?
  }

  lemma StepKeepsInv(s: State, r: Ref, d: Decision, t: State)
    requires Next(s, r, d, t)
    ensures Inv(t) && |t.owner| == |s.owner|
  {
  }

  /** Every state of a run meets the invariant and has the same number of frames. */
  lemma {:induction false} RunKeepsInv(ss: seq<State>, trace: seq<Ref>, ds: seq<Decision>, i: nat)
    requires IsRun(ss, trace, ds) && i < |ss|
    ensures Inv(ss[i]) && |ss[i].owner| == |ss[0].owner|
  {
    if i > 0 {
      RunKeepsInv(ss, trace, ds, i - 1);
      assert StepAt(ss, trace, ds, i - 1);
      StepKeepsInv(ss[i - 1], trace[i - 1], ds[i - 1], ss[i]);
    }
  }

  /** A run cut after `n` references is a run. */
  lemma RunPrefix(ss: seq<State>, trace: seq<Ref>, ds: seq<Decision>, n: nat)
    requires IsRun(ss, trace, ds) && n <= |trace|
    ensures IsRun(ss[..n + 1], trace[..n], ds[..n])
  {
    var ss', trace', ds' := ss[..n + 1], trace[..n], ds[..n];
    forall i: nat | i < n ensures StepAt(ss', trace', ds', i) {
      assert StepAt(ss, trace, ds, i);
    }
  }

  // ------------------------------------------------ what a step does, part by part

  /** A hit changes no frame, no slot and nothing in the swap file. */
  lemma AfterHit(s: State, r: Ref, d: Decision, t: State)
    requires Next(s, r, d, t) && s.table[PageOf(r.vaddr)].valid
    ensures t.owner == s.owner && |t.table| == |s.table|
    ensures t.count == s.count.(hits := s.count.hits + 1, refs := s.count.refs + 1)
    ensures forall q | 0 <= q < |s.table| :: t.table[q].swapOff == s.table[q].swapOff
  {
  }

  /** After its frame is vacated, a miss only fills that frame. */
  lemma AfterMiss(s: State, r: Ref, d: Decision, t: State)
    requires Next(s, r, d, t) && !s.table[PageOf(r.vaddr)].valid
    ensures Vacate(s, d).Some?
    ensures var (v, f) := Vacate(s, d).value;
      && t.owner == v.owner[f := Some(PageOf(r.vaddr))] && |t.table| == |v.table|
      && t.count == v.count.(misses := v.count.misses + 1, refs := v.count.refs + 1)
      && forall q | 0 <= q < |v.table| :: t.table[q].swapOff == v.table[q].swapOff
  {
    hide Vacate;
  }

  /** Giving up a frame touches the victim's entry and, through the policy, reference bits. */
  lemma VacateEntries(s: State, d: Decision, q: nat)
    requires Inv(s) && d.victim < |s.owner| && q < PAGES && Vacate(s, d).Some?
    ensures var e, t := s.table[q], Vacate(s, d).value.0;
      if FreeFrame(s.owner, 0).Some? then t.table[q] == e
      else if s.owner[d.victim] == Some(q) then !t.table[q].valid
      else t.table[q] == if q in d.cleared then e.(ref := false) else e
  {
    hide Evict, Flagged, Slotted;
    if FreeFrame(s.owner, 0).None? {
      EvictForm(Sweep(s, d.cleared), d.victim);
    }
  }

  /** After a reference its page is valid, referenced, and dirty if it was or is now written;
      every other valid entry was valid before and keeps its frame and dirty bit. */
  lemma StepEntries(s: State, r: Ref, d: Decision, t: State, q: nat)
    requires Next(s, r, d, t) && q < PAGES
    ensures Inv(t)
    ensures var p := PageOf(r.vaddr);
      if q == p then
        && t.table[q].valid && t.table[q].ref
        && (t.table[q].dirty <==> IsWrite(r.kind) || (s.table[q].valid && s.table[q].dirty))
        && (s.table[q].valid ==> t.table[q].frame == s.table[q].frame)
      else if s.table[p].valid || FreeFrame(s.owner, 0).Some? then t.table[q] == s.table[q]
      else if s.owner[d.victim] == Some(q) then !t.table[q].valid
      else t.table[q] == if q in d.cleared then s.table[q].(ref := false) else s.table[q]
  {
    hide Vacate, Flagged, Slotted, FreeFrame, PageOf;
    IndicesNameThePage(r.vaddr, r.vaddr);
    if !s.table[PageOf(r.vaddr)].valid {
      VacateEntries(s, d, q);
    }
  }

  /** The frame a miss loads its page into. */
  function FrameFor(s: State, d: Decision): nat {
    match FreeFrame(s.owner, 0)
    case Some(f) => f
    case None => d.victim
  }

  lemma EvictOwners(s: State, f: nat)
    requires Inv(s) && f < |s.owner| && s.owner[f].Some? && Evict(s, f).Some?
    ensures Evict(s, f).value.owner == s.owner[f := None]
    ensures Evict(s, f).value.count.misses == s.count.misses
  {
  }

  lemma VacateOwners(s: State, d: Decision)
    requires Inv(s) && d.victim < |s.owner| && Vacate(s, d).Some?
    ensures FrameFor(s, d) < |s.owner|
    ensures Vacate(s, d).value.1 == FrameFor(s, d)
    ensures Vacate(s, d).value.0.owner == s.owner[FrameFor(s, d) := None]
    ensures Vacate(s, d).value.0.count.misses == s.count.misses
  {
    hide Evict;
    if FreeFrame(s.owner, 0).None? {
      EvictOwners(Sweep(s, d.cleared), d.victim);
    }
  }

  /** What a reference does to the coremap and to the miss counter. */
  lemma StepOwners(s: State, r: Ref, d: Decision, t: State)
    requires Next(s, r, d, t)
    ensures PageOf(r.vaddr) < PAGES == |s.table| && FrameFor(s, d) < |s.owner|
    ensures if s.table[PageOf(r.vaddr)].valid
      then t.owner == s.owner && t.count.misses == s.count.misses
      else t.owner == s.owner[FrameFor(s, d) := Some(PageOf(r.vaddr))] && t.count.misses == s.count.misses + 1
  {
    hide Step, Vacate;
    if s.table[PageOf(r.vaddr)].valid {
      AfterHit(s, r, d, t);
    } else {
      AfterMiss(s, r, d, t);
      VacateOwners(s, d);
    }
  }

  /** Evicting the policy's victim would need a swap slot, and every slot is taken. */
  ghost predicate OutOfSwap(s: State, d: Decision)
    requires Inv(s) && d.victim < |s.owner|
  {
    && FreeFrame(s.owner, 0).None?
    && s.table[s.owner[d.victim].value].dirty
    && !HasSlot(s.table[s.owner[d.victim].value])
    && forall k: nat | k < s.swapSize :: k in s.taken
  }

  lemma VacateFails(s: State, d: Decision)
    requires Inv(s) && d.victim < |s.owner|
    ensures Vacate(s, d).None? <==> OutOfSwap(s, d)
  {
    if FreeFrame(s.owner, 0).None? {
      var s0 := Sweep(s, d.cleared);
      var p := s0.owner[d.victim].value;
      var s1 := Unmap(s0, d.victim);
      assert s1.table[p].dirty == s.table[p].dirty && s1.table[p].swapOff == s.table[p].swapOff;
    }
  }

  /** The program exits on a reference exactly if it is a miss that is out of swap. */
  lemma StepFails(s: State, r: Ref, d: Decision)
    requires Inv(s) && r.vaddr < ADDRESS_LIMIT && d.victim < |s.owner|
    ensures Step(s, r.kind, r.vaddr, d).None? <==> !s.table[PageOf(r.vaddr)].valid && OutOfSwap(s, d)
  {
    hide Vacate, Load, Hit, Touch;
    VacateFails(s, d);
  }
}
