/** The shortest way to a lost write: one frame, a page written once, and two read-only visits. */
module LostWrite {
  import opened Options
  import opened Addresses
  import opened Paging
  import opened Runs
  import opened FlatMemory
  import opened Transparency

  const TRACE := [Ref('S', 0), Ref('L', 0x1000), Ref('L', 0), Ref('L', 0x1000), Ref('L', 0)]
  const ONLY := Decision(0, {})
  const START := Initial(1, [Content(0, 0)])

  /** With one frame, a read miss on page `p` while page `q` is resident evicts `q`. */
  lemma OneFrameMiss(s: State, r: Ref, p: nat, q: nat) returns (t: State)
    requires Inv(s) && s.owner == [Some(q)] && q < PAGES
    requires r == Ref('L', p * PAGE_SIZE) && p < PAGES && p != q && !s.table[p].valid
    requires s.table[q].dirty ==> SlotFor(s, s.table[q]).Some?
    ensures Step(s, r.kind, r.vaddr, ONLY).Some?
    ensures Next(s, r, ONLY, t) && Inv(t) && t.owner == [Some(p)]
    ensures t.table[p].valid && !t.table[p].dirty && !t.table[q].valid
    ensures View(t, q) == if s.table[q].dirty then View(s, q) else None
  {
    hide Step, View;
    StepFails(s, r, ONLY);
    t := Step(s, r.kind, r.vaddr, ONLY).value.state;
    assert Next(s, r, ONLY, t);
    StepEntries(s, r, ONLY, t, q);
    StepEntries(s, r, ONLY, t, p);
    StepOwners(s, r, ONLY, t);
    NextIsFlat(s, r, ONLY, t, q);
  }

  /** The first write: page 0 is resident and dirty, nothing is on swap. */
  lemma FirstWrite() returns (t: State)
    ensures Next(START, TRACE[0], ONLY, t) && Inv(t) && t.owner == [Some(0)]
    ensures t.table[0].dirty && !t.table[1].valid
    ensures SlotFor(t, t.table[0]).Some?
  {
    t := Step(START, 'S', 0, ONLY).value.state;
    assert t.taken == {} && t.swapSize == 1;
  }

  /** The last reference of `TRACE` finds version 0 although page 0 has been written once. */
  lemma ReadVisitLosesWrite() returns (ss: seq<State>, ds: seq<Decision>)
    ensures IsRun(ss, TRACE, ds) && ss[0] == START && StepAt(ss, TRACE, ds, 4)
    ensures Writes(TRACE, 0, 4) == 1 && Seen(ss, TRACE, ds, 4).version == 0
  {
    hide Step, View, Next, SlotFor, Inv, START;
    var s1 := FirstWrite();
    var s2 := OneFrameMiss(s1, TRACE[1], 1, 0);
    var s3 := OneFrameMiss(s2, TRACE[2], 0, 1);
    var s4 := OneFrameMiss(s3, TRACE[3], 1, 0);
    var s5 := OneFrameMiss(s4, TRACE[4], 0, 1);
    ss := [START, s1, s2, s3, s4, s5];
    ds := [ONLY, ONLY, ONLY, ONLY, ONLY];
    forall i: nat | i < |TRACE| ensures StepAt(ss, TRACE, ds, i) {
    }
    SeesZero(s4);
  }

  lemma SeesZero(s: State)
    requires Inv(s) && |s.owner| == 1 && View(s, 0) == None && Step(s, 'L', 0, ONLY).Some?
    ensures Step(s, 'L', 0, ONLY).value.version == 0
  {
    StepIsFlat(s, 'L', 0, ONLY, 0);
  }
}
