/** The replacement algorithms inside the simulator: what each answers over a run, and the
    theorems about their miss counters. */
module Policies {
  import opened Options
  import opened Addresses
  import opened Paging
  import opened Runs
  import opened Bookkeeping
  import opened Residency
  import opened Optimal
  import opened Phases
  import opened Fifo
  import opened Clock
  import opened SwapUse
  import Fastslim
  import FlatMemory

  /** The entry of the algorithm table in use. `AnyAlg` stands for every other choice of a frame. */
  datatype Algorithm = FifoAlg | ClockAlg | OptAlg | AnyAlg

  /** The algorithms' globals: fifo's index, clock's hand, and opt's list of references to come. */
  datatype Globals = Globals(ind: nat, hand: nat, head: seq<nat>)

  /** The address words of the entries the frames point at. Nothing in the program assigns them, so
      they are a parameter. */
  function Stamps(stamp: nat -> nat, f: seq<nat>): (r: seq<nat>)
    ensures |r| == |f|
  {
    seq(|f|, i requires 0 <= i < |f| => stamp(f[i]))
  }

  function Tail(head: seq<nat>): seq<nat> {
    if head == [] then [] else head[1..]
  }

  /** An eviction function's answer `d` in state `s`, and what it does to its globals. */
  ghost predicate Chosen(alg: Algorithm, stamp: nat -> nat, s: State, d: Decision, a: Globals, b: Globals) {
    d.victim < |s.owner| &&
    match alg
    case FifoAlg => d == Decision(a.ind, {}) && b == a.(ind := (a.ind + 1) % |s.owner|)
    case ClockAlg =>
      && |s.owner| >= 2 && a.hand < |s.owner|
      && d.victim == DoSweep(RefBits(s), a.hand).victim && b == a.(hand := d.victim)
      && forall f | 0 <= f < |s.owner| && s.owner[f].Some? ::
           s.owner[f].value in d.cleared <==> f in DoSweep(RefBits(s), a.hand).passed
    case OptAlg =>
      Loaded(s.owner) != [] && d == Decision(OptVictim(Stamps(stamp, Loaded(s.owner)), a.head), {}) && b == a
    case AnyAlg => b == a
  }

  /** What an algorithm needs of its globals: fifo's index and clock's hand are frames. */
  predicate GlobalsOk(alg: Algorithm, memsize: nat, g: Globals) {
    match alg
    case FifoAlg => g.ind < memsize
    case ClockAlg => g.hand < memsize
    case OptAlg => true
    case AnyAlg => true
  }

  /** Should a victim be needed, the algorithm comes to an end: clock.c needs two frames for that. */
  predicate Ends(alg: Algorithm, s: State) {
    alg.ClockAlg? ==> |s.owner| >= 2 || FreeFrame(s.owner, 0).Some?
  }

  /** The algorithm comes to an end whenever it is asked on the trace: clock.c with one frame only if the
      trace stays on one page, the one in memory if there is one. */
  predicate EndsOn(alg: Algorithm, s: State, trace: seq<Ref>) {
    alg.ClockAlg? && |s.owner| == 1 ==>
      forall i | 0 <= i < |trace| ::
        && PageOf(trace[i].vaddr) == PageOf(trace[0].vaddr)
        && (s.owner[0].Some? ==> s.owner[0].value == PageOf(trace[0].vaddr))
  }

  lemma EndsOnNow(alg: Algorithm, s: State, trace: seq<Ref>)
    requires Inv(s) && |s.owner| > 0 && trace != [] && EndsOn(alg, s, trace)
    ensures Evicts(s, trace[0]) ==> Ends(alg, s)
  {
    hide PageOf;
  }

  lemma EndsOnLater(alg: Algorithm, s: State, trace: seq<Ref>, d: Decision, t: State)
    requires trace != [] && Next(s, trace[0], d, t) && EndsOn(alg, s, trace)
    ensures EndsOn(alg, t, trace[1..])
  {
    hide PageOf, Step;
    StepOwners(s, trace[0], d, t);
  }

  /** One reference under an algorithm: its answer `d` and how its globals change from `a` to `b`. */
  ghost predicate Answers(
      alg: Algorithm, stamp: nat -> nat, s: State, r: Ref, d: Decision, a: Globals, b: Globals)
  {
    Inv(s) &&
    match alg
    case FifoAlg =>
      a.ind < |s.owner| &&
      if Evicts(s, r) then d == Decision(a.ind, {}) && b.ind == (a.ind + 1) % |s.owner| else b.ind == a.ind
    case ClockAlg => ClockStep(s, r, d, a.hand, b.hand)
    case OptAlg =>
      && (Evicts(s, r) ==>
            Loaded(s.owner) != [] && d == Decision(OptVictim(Stamps(stamp, Loaded(s.owner)), a.head), {}))
      && b.head == Tail(a.head)
    case AnyAlg => true
  }

  /** A reference that evicts gets the algorithm's answer, any other leaves its globals alone; opt's list
      then loses its first address. */
  lemma ChosenIsAnswer(alg: Algorithm, stamp: nat -> nat, s: State, r: Ref, d: Decision, a: Globals, b: Globals)
    requires Inv(s) && GlobalsOk(alg, |s.owner|, a)
    requires if Evicts(s, r) then Chosen(alg, stamp, s, d, a, b) else b == a
    ensures var b' := if alg.OptAlg? then b.(head := Tail(b.head)) else b;
      Answers(alg, stamp, s, r, d, a, b') && GlobalsOk(alg, |s.owner|, b')
  {
    hide OptVictim, Loaded, Inv;
  }

  /** A reference that ends the run: the algorithm's victim must be written out and swap is full. */
  ghost predicate GivesUp(alg: Algorithm, stamp: nat -> nat, s: State, r: Ref, a: Globals) {
    Evicts(s, r) && exists d: Decision, b: Globals ::
      Chosen(alg, stamp, s, d, a, b) && Inv(s) && OutOfSwap(s, d)
  }

  lemma GivesUpAt(alg: Algorithm, stamp: nat -> nat, s: State, r: Ref, d: Decision, a: Globals, b: Globals)
    requires Inv(s) && r.vaddr < ADDRESS_LIMIT && d.victim < |s.owner|
    requires Step(s, r.kind, r.vaddr, d).None?
    requires Evicts(s, r) ==> Chosen(alg, stamp, s, d, a, b)
    ensures GivesUp(alg, stamp, s, r, a)
  {
    hide Flagged, Slotted, Chosen, Step, PageOf, FreeFrame;
    StepFails(s, r, d);
    IndicesNameThePage(r.vaddr, r.vaddr);
  }

  /** With a slot for every page the trace writes, the program never gives up. */
  lemma NeverGivesUp(
      alg: Algorithm, stamp: nat -> nat, ss: seq<State>, trace: seq<Ref>, ds: seq<Decision>,
      swapSize: nat, junk: seq<Content>, done: nat, g: Globals)
    requires done < |trace| && IsRun(ss, trace[..done], ds) && ss[0] == Initial(swapSize, junk)
    requires |WrittenPages(trace, |trace|)| <= swapSize
    ensures !GivesUp(alg, stamp, ss[done], trace[done], g)
  {
    hide Next, Inv, OutOfSwap, WrittenPages, Initial;
    WrittenPagesOfPrefix(trace, done, done);
    WrittenPagesGrow(trace, done, |trace|);
    SubsetSize(WrittenPages(trace, done), WrittenPages(trace, |trace|));
    forall d: Decision | d.victim < |ss[done].owner| ensures Inv(ss[done]) && !OutOfSwap(ss[done], d) {
      EnoughSwap(ss, trace[..done], ds, swapSize, junk, done, d);
    }
  }

  ghost predicate AnswersAt(
      alg: Algorithm, stamp: nat -> nat,
      ss: seq<State>, trace: seq<Ref>, ds: seq<Decision>, gs: seq<Globals>, i: nat)
    requires |ss| == |gs| == |trace| + 1 == |ds| + 1 && i < |trace|
  {
    Answers(alg, stamp, ss[i], trace[i], ds[i], gs[i], gs[i + 1])
  }

  /** A run whose every answer is the algorithm's. */
  ghost predicate IsRunOf(
      alg: Algorithm, stamp: nat -> nat,
      ss: seq<State>, trace: seq<Ref>, ds: seq<Decision>, gs: seq<Globals>)
  {
    && IsRun(ss, trace, ds)
    && |gs| == |ss|
    && forall i: nat | i < |trace| :: AnswersAt(alg, stamp, ss, trace, ds, gs, i)
  }

  /** A reference evicts exactly if its page is not loaded and no frame is left. */
  lemma EvictsIff(s: State, r: Ref)
    requires Inv(s) && Counted(s) && r.vaddr < ADDRESS_LIMIT
    ensures Evicts(s, r) <==> PageOf(r.vaddr) !in Loaded(s.owner) && |Loaded(s.owner)| == |s.owner|
  {
    ValidIsLoaded(s, PageOf(r.vaddr));
  }

  // ------------------------------------------------- counters do not matter

  /** The same state with other hit, miss and reference counts. */
  function Recount(s: State, hits: nat, misses: nat, refs: nat): State {
    s.(count := s.count.(hits := hits, misses := misses, refs := refs))
  }

  lemma RecountKeepsInv(s: State, hits: nat, misses: nat, refs: nat)
    requires Inv(s)
    ensures Inv(Recount(s, hits, misses, refs))
  {
    SameSlots(s, Recount(s, hits, misses, refs));
  }

  lemma RecountEvict(s: State, f: nat, hits: nat, misses: nat, refs: nat)
    requires Inv(s) && Inv(Recount(s, hits, misses, refs)) && f < |s.owner| && s.owner[f].Some?
    ensures Evict(Recount(s, hits, misses, refs), f) ==
      match Evict(s, f) case None => None case Some(t) => Some(Recount(t, hits, misses, refs))
  {
    hide Inv, Evict;
    EvictForm(s, f);
    EvictForm(Recount(s, hits, misses, refs), f);
  }

  lemma RecountVacate(s: State, d: Decision, hits: nat, misses: nat, refs: nat)
    requires Inv(s) && d.victim < |s.owner|
    ensures Inv(Recount(s, hits, misses, refs))
    ensures Vacate(Recount(s, hits, misses, refs), d) ==
      match Vacate(s, d) case None => None case Some((t, f)) => Some((Recount(t, hits, misses, refs), f))
  {
    hide Evict;
    RecountKeepsInv(s, hits, misses, refs);
    if FreeFrame(s.owner, 0).None? {
      RecountKeepsInv(Paging.Sweep(s, d.cleared), hits, misses, refs);
      RecountEvict(Paging.Sweep(s, d.cleared), d.victim, hits, misses, refs);
    }
  }

  lemma RecountChosen(
      alg: Algorithm, stamp: nat -> nat, s: State, d: Decision, a: Globals, b: Globals,
      hits: nat, misses: nat, refs: nat)
    requires Chosen(alg, stamp, Recount(s, hits, misses, refs), d, a, b)
    ensures Chosen(alg, stamp, s, d, a, b)
  {
    assert RefBits(Recount(s, hits, misses, refs)) == RefBits(s);
    hide OptVictim, DoSweep, RefBits, Loaded;
  }

  /** Frame `f` filled for page `p`, and the entry's word overwritten with the frame number. */
  function Filled(v: State, f: nat, p: nat, vaddr: nat): State
    requires Sized(v) && p < PAGES && f < |v.owner|
  {
    var e := v.table[p];
    var c := if e.onSwap && SlotAt(e.swapOff) in v.swap then v.swap[SlotAt(e.swapOff)] else Content(0, vaddr);
    v.(owner := v.owner[f := Some(p)], mem := v.mem[f := c],
       table := v.table[p := Entry(f, false, false, false, false, e.swapOff)])
  }

  function Validated(s: State, p: nat): State
    requires p < |s.table|
  {
    s.(table := s.table[p := s.table[p].(valid := true)])
  }

  /** The flags the end of find_physpage sets, and the bump access_mem adds. */
  function Referenced(s: State, p: nat, kind: char): State
    requires p < |s.table|
  {
    var e := s.table[p];
    s.(table := s.table[p := e.(ref := true, dirty := e.dirty || IsWrite(kind))])
  }

  lemma HitInParts(s: State, vaddr: nat, d: Decision)
    requires Inv(s) && vaddr < ADDRESS_LIMIT && d.victim < |s.owner| && s.table[PageOf(vaddr)].valid
    ensures var r := Recount(s, s.count.hits + 1, s.count.misses, s.count.refs + 1);
      Fetch(s, vaddr, d) == Some(r) && Validated(r, PageOf(vaddr)) == r
  {
  }

  lemma TouchInParts(s: State, vaddr: nat, kind: char)
    requires Inv(s) && vaddr < ADDRESS_LIMIT && s.table[PageOf(vaddr)].valid
    ensures var f := s.table[PageOf(vaddr)].frame;
      && f < |s.mem|
      && Touch(s, vaddr, kind) ==
           Referenced(s, PageOf(vaddr), kind).(mem := s.mem[f := FlatMemory.Bump(s.mem[f], kind)])
  {
    var p := PageOf(vaddr);
    assert s.mem[s.table[p].frame := s.mem[s.table[p].frame]] == s.mem;
  }

  /** What a miss makes of the vacated frame. */
  lemma MissInParts(s: State, vaddr: nat, d: Decision)
    requires Inv(s) && vaddr < ADDRESS_LIMIT && d.victim < |s.owner| && !s.table[PageOf(vaddr)].valid
    ensures Fetch(s, vaddr, d).None? <==> Vacate(s, d).None?
    ensures Vacate(s, d).Some? ==>
      var (v, f) := Vacate(s, d).value;
      && Sized(v) && f < |v.owner| == |s.owner|
      && Fetch(s, vaddr, d).value ==
           Recount(Validated(Filled(v, f, PageOf(vaddr), vaddr), PageOf(vaddr)),
                   v.count.hits, v.count.misses + 1, v.count.refs + 1)
  {
    hide Vacate;
    if Vacate(s, d).Some? {
      var (v, f) := Vacate(s, d).value;
      var p := PageOf(vaddr);
      var x := Entry(f, true, false, false, false, v.table[p].swapOff);
      assert v.table[p := x.(valid := false)][p := x] == v.table[p := x];
    }
  }

  lemma RecountFilled(v: State, f: nat, p: nat, vaddr: nat, hits: nat, misses: nat, refs: nat)
    requires Sized(v) && p < PAGES && f < |v.owner|
    ensures var c := Recount(v, hits, misses, refs);
      Validated(Filled(c, f, p, vaddr), p) == Recount(Validated(Filled(v, f, p, vaddr), p), hits, misses, refs)
  {
  }

  /** A miss that is already counted, up to the point where the entry is marked valid. */
  function Missed(c: State, d: Decision, p: nat, vaddr: nat): (r: Option<State>)
    requires Inv(c) && d.victim < |c.owner| && p < PAGES
    ensures r.Some? ==> |r.value.table| == PAGES
  {
    match Vacate(c, d)
    case None => None
    case Some((v, f)) => Some(Filled(v, f, p, vaddr))
  }

  /** A miss in the order the program counts it: the reference and the miss first, the eviction after. */
  lemma CountedMiss(s: State, vaddr: nat, d: Decision)
    requires Inv(s) && vaddr < ADDRESS_LIMIT && d.victim < |s.owner| && !s.table[PageOf(vaddr)].valid
    ensures var c, p := Recount(s, s.count.hits, s.count.misses + 1, s.count.refs + 1), PageOf(vaddr);
      && Inv(c) && p < PAGES
      && Fetch(s, vaddr, d) ==
           match Missed(c, d, p, vaddr) case None => None case Some(t) => Some(Validated(t, p))
  {
    hide Vacate, Fetch, Filled, Validated, Inv;
    MissInParts(s, vaddr, d);
    RecountVacate(s, d, s.count.hits, s.count.misses + 1, s.count.refs + 1);
    if Vacate(s, d).Some? {
      VacateCounts(s, d);
      var (v, f) := Vacate(s, d).value;
      RecountFilled(v, f, PageOf(vaddr), vaddr, s.count.hits, s.count.misses + 1, s.count.refs + 1);
    }
  }

  // ------------------------------------------------------------------- FIFO

  lemma FifoIndexStep(stamp: nat -> nat, s: State, r: Ref, d: Decision, t: State, a: Globals, b: Globals)
    requires Next(s, r, d, t) && Counted(s) && Answers(FifoAlg, stamp, s, r, d, a, b)
    requires Turned(Loaded(s.owner), a.ind, |s.owner|)
    ensures Counted(t) && |t.owner| == |s.owner|
    ensures Turned(Loaded(t.owner), b.ind, |t.owner|)
    ensures Evicts(s, r) <==> PageOf(r.vaddr) !in Loaded(s.owner) && |Loaded(s.owner)| == |s.owner|
  {
    hide Next, Loaded, Evicts, Counted;
    NextAddress(s, r, d, t);
    EvictsIff(s, r);
    StepLoaded(s, r, d, t);
  }

  lemma NextAddress(s: State, r: Ref, d: Decision, t: State)
    requires Next(s, r, d, t)
    ensures Inv(s) && r.vaddr < ADDRESS_LIMIT && d.victim < |s.owner|
  {
  }

  /** In every reachable state the index stands at 0 until memory is full. */
  lemma {:induction false} FifoIndexOverRun(
      stamp: nat -> nat, ss: seq<State>, trace: seq<Ref>, ds: seq<Decision>, gs: seq<Globals>,
      swapSize: nat, junk: seq<Content>, n: nat)
    requires IsRunOf(FifoAlg, stamp, ss, trace, ds, gs) && n <= |trace|
    requires ss[0] == Initial(swapSize, junk) && gs[0].ind == 0 && |junk| > 0
    ensures Counted(ss[n]) && |ss[n].owner| == |junk| && Turned(Loaded(ss[n].owner), gs[n].ind, |junk|)
  {
    hide Next, Answers, Inv;
    if n == 0 {
      CountersOverRun(ss, trace, ds, swapSize, junk, 0);
    } else {
      hide Turned, Loaded, Counted;
      FifoIndexOverRun(stamp, ss, trace, ds, gs, swapSize, junk, n - 1);
      assert StepAt(ss, trace, ds, n - 1) && AnswersAt(FifoAlg, stamp, ss, trace, ds, gs, n - 1);
      FifoIndexStep(stamp, ss[n - 1], trace[n - 1], ds[n - 1], ss[n], gs[n - 1], gs[n]);
    }
  }

  /** When page `p` was last brought in: the number of references made by then, 0 if it never was. */
  function LoadTime(ss: seq<State>, trace: seq<Ref>, p: nat, n: nat): nat
    requires |ss| == |trace| + 1 && n <= |trace|
  {
    if n == 0 then 0
    else if PageOf(trace[n - 1].vaddr) == p && p !in Loaded(ss[n - 1].owner) then n
    else LoadTime(ss, trace, p, n - 1)
  }

  /** The pages of `q` were all brought in, in the order they stand there. */
  ghost predicate InLoadOrder(q: seq<nat>, ss: seq<State>, trace: seq<Ref>, n: nat)
    requires |ss| == |trace| + 1 && n <= |trace|
  {
    && (forall i | 0 <= i < |q| :: 0 < LoadTime(ss, trace, q[i], n) <= n)
    && forall i, j | 0 <= i < j < |q| :: LoadTime(ss, trace, q[i], n) < LoadTime(ss, trace, q[j], n)
  }

  lemma LoadTimeStep(ss: seq<State>, trace: seq<Ref>, p: nat, n: nat)
    requires |ss| == |trace| + 1 && n < |trace|
    ensures LoadTime(ss, trace, p, n + 1) ==
      if PageOf(trace[n].vaddr) == p && p !in Loaded(ss[n].owner) then n + 1 else LoadTime(ss, trace, p, n)
  {
  }

  /** One queue operation keeps the order. */
  lemma EnqueueInOrder(q: seq<nat>, ss: seq<State>, trace: seq<Ref>, n: nat, m: nat)
    requires |ss| == |trace| + 1 && n < |trace| && |q| <= m && m > 0
    requires PageOf(trace[n].vaddr) in q <==> PageOf(trace[n].vaddr) in Loaded(ss[n].owner)
    requires InLoadOrder(q, ss, trace, n)
    ensures InLoadOrder(Enqueue(q, PageOf(trace[n].vaddr), m), ss, trace, n + 1)
  {
    hide PageOf, Loaded, LoadTime;
    var p, r := PageOf(trace[n].vaddr), Enqueue(q, PageOf(trace[n].vaddr), m);
    var first := if p in q || |q| < m then 0 else 1;
    forall i | 0 <= i < |r|
      ensures LoadTime(ss, trace, r[i], n + 1) ==
              if i + first < |q| then LoadTime(ss, trace, q[i + first], n) else n + 1
    {
      LoadTimeStep(ss, trace, r[i], n);
      assert r[i] == if i + first < |q| then q[i + first] else p;
    }
  }

  /** In every state of a run under fifo the queue that starts at the index holds the loaded pages in the
      order they were brought in. */
  lemma {:induction false} QueueInLoadOrder(
      stamp: nat -> nat, ss: seq<State>, trace: seq<Ref>, ds: seq<Decision>, gs: seq<Globals>,
      swapSize: nat, junk: seq<Content>, n: nat)
    requires IsRunOf(FifoAlg, stamp, ss, trace, ds, gs) && n <= |trace|
    requires ss[0] == Initial(swapSize, junk) && gs[0].ind == 0 && |junk| > 0
    ensures gs[n].ind <= |Loaded(ss[n].owner)|
    ensures InLoadOrder(Queue(Loaded(ss[n].owner), gs[n].ind), ss, trace, n)
  {
    hide Next, Inv, Counted, Loaded, Queue, Enqueue, InLoadOrder, Evicts;
    FifoIndexOverRun(stamp, ss, trace, ds, gs, swapSize, junk, n);
    if n == 0 {
      InitiallyNoQueue(ss, trace, swapSize, junk);
    } else {
      var s, r, d, t := ss[n - 1], trace[n - 1], ds[n - 1], ss[n];
      var f, ind, p, m := Loaded(s.owner), gs[n - 1].ind, PageOf(r.vaddr), |junk|;
      QueueInLoadOrder(stamp, ss, trace, ds, gs, swapSize, junk, n - 1);
      FifoIndexOverRun(stamp, ss, trace, ds, gs, swapSize, junk, n - 1);
      assert StepAt(ss, trace, ds, n - 1) && AnswersAt(FifoAlg, stamp, ss, trace, ds, gs, n - 1);
      FifoIndexStep(stamp, s, r, d, t, gs[n - 1], gs[n]);
      StepLoaded(s, r, d, t);
      ReferIsEnqueue(f, ind, p, d.victim, m);
      QueueSize(f, ind);
      EnqueueInOrder(Queue(f, ind), ss, trace, n - 1, m);
    }
  }

  lemma InitiallyNoQueue(ss: seq<State>, trace: seq<Ref>, swapSize: nat, junk: seq<Content>)
    requires |ss| == |trace| + 1 && ss[0] == Initial(swapSize, junk)
    ensures Loaded(ss[0].owner) == [] && InLoadOrder(Queue([], 0), ss, trace, 0)
  {
  }

  lemma QueueSize(f: seq<nat>, ind: nat)
    requires ind <= |f|
    ensures |Queue(f, ind)| == |f|
    ensures forall p :: p in f <==> p in Queue(f, ind)
    ensures ind < |f| ==> Queue(f, ind)[0] == f[ind]
  {
    assert f == f[..ind] + f[ind..];
  }

  /** First in, first out: every page fifo evicts was brought in before every other page in memory. */
  lemma FifoEvictsOldest(
      stamp: nat -> nat, ss: seq<State>, trace: seq<Ref>, ds: seq<Decision>, gs: seq<Globals>,
      swapSize: nat, junk: seq<Content>, n: nat)
    requires IsRunOf(FifoAlg, stamp, ss, trace, ds, gs) && n < |trace|
    requires ss[0] == Initial(swapSize, junk) && gs[0].ind == 0 && |junk| > 0 && Evicts(ss[n], trace[n])
    ensures ds[n].victim < |ss[n].owner| && ss[n].owner[ds[n].victim].Some?
    ensures var v := ss[n].owner[ds[n].victim].value;
      forall p: nat | Some(p) in ss[n].owner && p != v ::
        0 < LoadTime(ss, trace, v, n) < LoadTime(ss, trace, p, n)
  {
    hide Next, Inv, Counted, Loaded, Queue, Initial, LoadTime, Evicts, Stamps, OptVictim, ClockStep, PageOf;
    var s, m := ss[n], |junk|;
    var f, ind := Loaded(s.owner), gs[n].ind;
    FifoIndexOverRun(stamp, ss, trace, ds, gs, swapSize, junk, n);
    QueueInLoadOrder(stamp, ss, trace, ds, gs, swapSize, junk, n);
    assert StepAt(ss, trace, ds, n) && AnswersAt(FifoAlg, stamp, ss, trace, ds, gs, n);
    NextAddress(s, trace[n], ds[n], ss[n + 1]);
    EvictsIff(s, trace[n]);
    QueueSize(f, ind);
    var q := Queue(f, ind);
    forall p: nat | Some(p) in s.owner && p != s.owner[ds[n].victim].value
      ensures 0 < LoadTime(ss, trace, q[0], n) < LoadTime(ss, trace, p, n)
    {
      var i :| 0 <= i < |s.owner| && s.owner[i] == Some(p);
      assert f[i] == p && p in f;
      assert p in Queue(f, ind);
      var j :| 0 <= j < |q| && q[j] == p;
    }
  }

  /** From any state whose counters are in order, the run is a FIFO run of the pages in memory. */
  lemma {:induction false} FifoFrom(
      stamp: nat -> nat, ss: seq<State>, trace: seq<Ref>, ds: seq<Decision>, gs: seq<Globals>, i: nat)
    requires IsRunOf(FifoAlg, stamp, ss, trace, ds, gs) && i <= |trace| && Counted(ss[i])
    requires Turned(Loaded(ss[i].owner), gs[i].ind, |ss[0].owner|)
    ensures InRange(Victims(ds)[i..], |ss[0].owner|)
    ensures IsFifoRun(Loaded(ss[i].owner), gs[i].ind, Pages(trace)[i..], Victims(ds)[i..], |ss[0].owner|)
    decreases |trace| - i
  {
    hide Next, Inv, Loaded, Counted, Turned, Pages, Victims, Evicts;
    assert |Loaded(ss[i].owner)| <= |ss[0].owner| by {
      TurnedSize(Loaded(ss[i].owner), gs[i].ind, |ss[0].owner|);
    }
    if i < |trace| {
      RunKeepsInv(ss, trace, ds, i);
      assert StepAt(ss, trace, ds, i) && AnswersAt(FifoAlg, stamp, ss, trace, ds, gs, i);
      FifoIndexStep(stamp, ss[i], trace[i], ds[i], ss[i + 1], gs[i], gs[i + 1]);
      StepLoaded(ss[i], trace[i], ds[i], ss[i + 1]);
      FifoFrom(stamp, ss, trace, ds, gs, i + 1);
      FifoTail(Loaded(ss[i].owner), gs[i].ind, trace, ds, i, |ss[0].owner|);
    }
  }

  lemma TurnedSize(f: seq<nat>, ind: nat, m: nat)
    requires Turned(f, ind, m)
    ensures |f| <= m
  {
  }

  /** One step of `IsFifoRun` on slices of the trace. */
  lemma FifoTail(f: seq<nat>, ind: nat, trace: seq<Ref>, ds: seq<Decision>, i: nat, m: nat)
    requires |trace| == |ds| && i < |trace| && |f| <= m && ds[i].victim < m && InRange(Victims(ds)[i + 1..], m)
    requires var p := PageOf(trace[i].vaddr);
      && (p in f || |f| < m || ds[i].victim == ind)
      && IsFifoRun(Refer(f, p, ds[i].victim, m), NextIndex(f, ind, p, m),
                   Pages(trace)[i + 1..], Victims(ds)[i + 1..], m)
    ensures InRange(Victims(ds)[i..], m)
    ensures IsFifoRun(f, ind, Pages(trace)[i..], Victims(ds)[i..], m)
  {
    assert Victims(ds)[i..] == [ds[i].victim] + Victims(ds)[i + 1..];
    assert Pages(trace)[i..] == [PageOf(trace[i].vaddr)] + Pages(trace)[i + 1..];
  }

  /** FIFO in the simulator misses at most memsize times as often as any other policy in the same
      simulator with the same memory, on every trace both complete. */
  lemma FifoBeatsAnyByFactor(
      stamp: nat -> nat, trace: seq<Ref>,
      ss: seq<State>, ds: seq<Decision>, gs: seq<Globals>, swapSize: nat, junk: seq<Content>,
      ss': seq<State>, ds': seq<Decision>, swapSize': nat, junk': seq<Content>)
    requires IsRunOf(FifoAlg, stamp, ss, trace, ds, gs) && gs[0].ind == 0 && ss[0] == Initial(swapSize, junk)
    requires IsRun(ss', trace, ds') && ss'[0] == Initial(swapSize', junk')
    requires |junk| == |junk'| > 0
    ensures ss[|trace|].count.misses <= |junk| * ss'[|trace|].count.misses
  {
    hide IsFifoRun, Misses, Inv, Next, Answers;
    var n := |trace|;
    FifoIndexOverRun(stamp, ss, trace, ds, gs, swapSize, junk, 0);
    FifoFrom(stamp, ss, trace, ds, gs, 0);
    MissesOverRun(ss, trace, ds, swapSize, junk);
    MissesOverRun(ss', trace, ds', swapSize', junk');
    assert Loaded(ss[0].owner) == [];
    assert Pages(trace)[0..] == Pages(trace) && Victims(ds)[0..] == Victims(ds);
    FifoIsCompetitive(Pages(trace), Victims(ds), Victims(ds'), |junk|);
  }

  lemma RunOfPrefix(
      alg: Algorithm, stamp: nat -> nat,
      ss: seq<State>, trace: seq<Ref>, ds: seq<Decision>, gs: seq<Globals>, n: nat)
    requires IsRunOf(alg, stamp, ss, trace, ds, gs) && n <= |trace|
    ensures IsRunOf(alg, stamp, ss[..n + 1], trace[..n], ds[..n], gs[..n + 1])
  {
    hide Next, Answers;
    RunPrefix(ss, trace, ds, n);
    var ss', trace', ds', gs' := ss[..n + 1], trace[..n], ds[..n], gs[..n + 1];
    forall i: nat | i < n ensures AnswersAt(alg, stamp, ss', trace', ds', gs', i) {
      assert AnswersAt(alg, stamp, ss, trace, ds, gs, i);
    }
  }

  /** From any state a FIFO run reaches, a stretch of the trace over at most memsize distinct pages
      misses at most once per page. */
  lemma FifoStretch(
      stamp: nat -> nat, trace: seq<Ref>, ss: seq<State>, ds: seq<Decision>, gs: seq<Globals>,
      swapSize: nat, junk: seq<Content>, i: nat, j: nat)
    requires IsRunOf(FifoAlg, stamp, ss, trace, ds, gs) && gs[0].ind == 0 && ss[0] == Initial(swapSize, junk)
    requires i <= j <= |trace| && |junk| > 0
    requires |SetOf(Pages(trace[..j])[i..])| <= |junk|
    ensures ss[j].count.misses <= ss[i].count.misses + |SetOf(Pages(trace[..j])[i..])|
  {
    hide IsFifoRun, Misses, Inv, Next, Answers, Initial, Pages, Victims, Loaded, Counted, Turned, SetOf;
    RunOfPrefix(FifoAlg, stamp, ss, trace, ds, gs, j);
    var ss', trace', ds', gs' := ss[..j + 1], trace[..j], ds[..j], gs[..j + 1];
    FifoIndexOverRun(stamp, ss', trace', ds', gs', swapSize, junk, 0);
    FifoIndexOverRun(stamp, ss', trace', ds', gs', swapSize, junk, i);
    FifoFrom(stamp, ss', trace', ds', gs', i);
    MissesFrom(ss', trace', ds', i);
    RunKeepsInv(ss', trace', ds', i);
    LoadedDistinct(ss'[i]);
    FifoIsConservative(Loaded(ss'[i].owner), gs'[i].ind, Pages(trace')[i..], Victims(ds')[i..], |junk|);
  }

  lemma LoadedDistinct(s: State)
    requires Inv(s) && Counted(s)
    ensures Distinct(Loaded(s.owner))
  {
    ValidIsLoaded(s, 0);
  }

  // ------------------------------------------------------------------ CLOCK

  /** Where the hand stands before each reference, and at the end. */
  function Hands(gs: seq<Globals>): (hands: seq<nat>)
    ensures |hands| == |gs|
  {
    seq(|gs|, i requires 0 <= i < |gs| => gs[i].hand)
  }

  /** The simulator running clock.c is a CLOCK run, so it gives every page its second chance. */
  lemma ClockGivesSecondChance(
      stamp: nat -> nat, trace: seq<Ref>, ss: seq<State>, ds: seq<Decision>, gs: seq<Globals>,
      swapSize: nat, junk: seq<Content>, n: nat)
    requires IsRunOf(ClockAlg, stamp, ss, trace, ds, gs) && gs[0].hand == 0 && ss[0] == Initial(swapSize, junk)
    requires n < |trace| && Evicts(ss[n], trace[n])
    ensures IsClockRun(ss, trace, ds, Hands(gs))
    ensures var v := ds[n].victim;
      && 0 < v < |ss[n].owner| && ss[n].owner[v].Some?
      && (!RefSincePass(ss, trace, Hands(gs), v, ss[n].owner[v].value, n) ||
          v in Passed(ss[n], trace[n], gs[n].hand))
  {
    hide Next, Inv, ClockStep, Initial, Evicts;
    var hands := Hands(gs);
    forall i: nat | i < |trace| ensures ClockAt(ss, trace, ds, hands, i) {
      assert AnswersAt(ClockAlg, stamp, ss, trace, ds, gs, i);
    }
    SecondChance(ss, trace, ds, hands, swapSize, junk, n);
    FrameZeroStays(ss, trace, ds, hands, swapSize, junk, n);
  }

  // -------------------------------------------------------------------- MIN

  /** The addresses of a trace: what opt's list holds, if it holds the whole trace. */
  function AddressesOf(trace: seq<Ref>): (r: seq<nat>)
    ensures |r| == |trace| && forall i | 0 <= i < |r| :: r[i] == trace[i].vaddr
  {
    seq(|trace|, i requires 0 <= i < |trace| => trace[i].vaddr)
  }

  /** opt's list starts as the whole trace, the trace is page-aligned, and the entries carry their page's
      address: what opt.c takes for granted. */
  ghost predicate OptKnows(stamp: nat -> nat, trace: seq<Ref>, head: seq<nat>) {
    && head == AddressesOf(trace)
    && (forall i | 0 <= i < |trace| :: trace[i].vaddr == PageOf(trace[i].vaddr) * PAGE_SIZE)
    && forall p: nat :: stamp(p) == p * PAGE_SIZE
  }

  /** Comparing addresses is comparing pages. */
  lemma {:induction false} SameNextUse(p: nat, pages: seq<nat>, head: seq<nat>)
    requires |head| == |pages| && forall i | 0 <= i < |pages| :: head[i] == pages[i] * PAGE_SIZE
    ensures NextUse(p * PAGE_SIZE, head) == NextUse(p, pages)
    decreases |pages|
  {
    if pages != [] {
      SameNextUse(p, pages[1..], head[1..]);
    }
  }

  lemma SameFurthest(stamp: nat -> nat, f: seq<nat>, pages: seq<nat>, head: seq<nat>, v: nat)
    requires |head| == |pages| && forall i | 0 <= i < |pages| :: head[i] == pages[i] * PAGE_SIZE
    requires forall p: nat :: stamp(p) == p * PAGE_SIZE
    requires IsFurthest(Stamps(stamp, f), head, v)
    ensures IsFurthest(f, pages, v)
  {
    hide NextUse;
    var g := Stamps(stamp, f);
    forall i | 0 <= i < |f|
      ensures NextUse(g[i], head) == NextUse(f[i], pages) && (g[i] in head <==> f[i] in pages)
    {
      SameNextUse(f[i], pages, head);
    }
  }

  lemma {:induction false} OptListOverRun(
      stamp: nat -> nat, ss: seq<State>, trace: seq<Ref>, ds: seq<Decision>, gs: seq<Globals>, n: nat)
    requires IsRunOf(OptAlg, stamp, ss, trace, ds, gs) && OptKnows(stamp, trace, gs[0].head) && n <= |trace|
    ensures gs[n].head == AddressesOf(trace)[n..]
  {
    hide Next, Inv;
    if n > 0 {
      OptListOverRun(stamp, ss, trace, ds, gs, n - 1);
      assert AnswersAt(OptAlg, stamp, ss, trace, ds, gs, n - 1);
    }
  }

  lemma OptAnswer(
      stamp: nat -> nat, ss: seq<State>, trace: seq<Ref>, ds: seq<Decision>, gs: seq<Globals>, n: nat)
    requires IsRunOf(OptAlg, stamp, ss, trace, ds, gs) && OptKnows(stamp, trace, gs[0].head) && n < |trace|
    ensures Evicts(ss[n], trace[n]) ==> IsFurthest(Loaded(ss[n].owner), Pages(trace)[n..], ds[n].victim)
  {
    hide Next, Inv, IsFurthest, Loaded, Evicts, OptVictim;
    OptListOverRun(stamp, ss, trace, ds, gs, n);
    assert AnswersAt(OptAlg, stamp, ss, trace, ds, gs, n);
    if Evicts(ss[n], trace[n]) {
      OptVictimIsFurthest(Stamps(stamp, Loaded(ss[n].owner)), gs[n].head);
      SameFurthest(stamp, Loaded(ss[n].owner), Pages(trace)[n..], gs[n].head, ds[n].victim);
    }
  }

  lemma MinTail(f: seq<nat>, trace: seq<Ref>, ds: seq<Decision>, i: nat, m: nat)
    requires |trace| == |ds| && i < |trace| && |f| <= m && ds[i].victim < m && InRange(Victims(ds)[i + 1..], m)
    requires var p := PageOf(trace[i].vaddr);
      && (p in f || |f| < m || IsFurthest(f, Pages(trace)[i..], ds[i].victim))
      && IsMinRun(Refer(f, p, ds[i].victim, m), Pages(trace)[i + 1..], Victims(ds)[i + 1..], m)
    ensures InRange(Victims(ds)[i..], m)
    ensures IsMinRun(f, Pages(trace)[i..], Victims(ds)[i..], m)
  {
    assert Victims(ds)[i..] == [ds[i].victim] + Victims(ds)[i + 1..];
    assert Pages(trace)[i..] == [PageOf(trace[i].vaddr)] + Pages(trace)[i + 1..];
  }

  lemma {:induction false} MinFrom(
      stamp: nat -> nat, ss: seq<State>, trace: seq<Ref>, ds: seq<Decision>, gs: seq<Globals>, i: nat)
    requires IsRunOf(OptAlg, stamp, ss, trace, ds, gs) && i <= |trace| && Counted(ss[i])
    requires OptKnows(stamp, trace, gs[0].head)
    ensures |Loaded(ss[i].owner)| <= |ss[0].owner| && InRange(Victims(ds)[i..], |ss[0].owner|)
    ensures IsMinRun(Loaded(ss[i].owner), Pages(trace)[i..], Victims(ds)[i..], |ss[0].owner|)
    decreases |trace| - i
  {
    hide Next, Inv, Loaded, Counted, Pages, Victims, Evicts, IsFurthest, OptKnows, Answers;
    RunKeepsInv(ss, trace, ds, i);
    if i < |trace| {
      assert StepAt(ss, trace, ds, i);
      NextAddress(ss[i], trace[i], ds[i], ss[i + 1]);
      EvictsIff(ss[i], trace[i]);
      StepLoaded(ss[i], trace[i], ds[i], ss[i + 1]);
      MinFrom(stamp, ss, trace, ds, gs, i + 1);
      OptAnswer(stamp, ss, trace, ds, gs, i);
      MinTail(Loaded(ss[i].owner), trace, ds, i, |ss[0].owner|);
    }
  }

  /** opt.c in the simulator, with its list and address words as it expects them, misses no more often
      than any other policy in the same simulator with the same memory, on every trace both complete. */
  lemma OptBeatsAny(
      stamp: nat -> nat, trace: seq<Ref>,
      ss: seq<State>, ds: seq<Decision>, gs: seq<Globals>, swapSize: nat, junk: seq<Content>,
      ss': seq<State>, ds': seq<Decision>, swapSize': nat, junk': seq<Content>)
    requires IsRunOf(OptAlg, stamp, ss, trace, ds, gs) && ss[0] == Initial(swapSize, junk)
    requires OptKnows(stamp, trace, gs[0].head)
    requires IsRun(ss', trace, ds') && ss'[0] == Initial(swapSize', junk') && |junk| == |junk'|
    ensures ss[|trace|].count.misses <= ss'[|trace|].count.misses
  {
    hide IsMinRun, Misses, Inv, Next, Answers, OptKnows;
    CountersOverRun(ss, trace, ds, swapSize, junk, 0);
    MinFrom(stamp, ss, trace, ds, gs, 0);
    MissesOverRun(ss, trace, ds, swapSize, junk);
    MissesOverRun(ss', trace, ds', swapSize', junk');
    assert Loaded(ss[0].owner) == [];
    assert Pages(trace)[0..] == Pages(trace) && Victims(ds)[0..] == Victims(ds);
    MinIsOptimal(Pages(trace), Victims(ds), Victims(ds'), |junk|);
  }

  // ---------------------------------------------------------- reference bits

  /** Fifo and opt clear no bits: in every state of their runs every resident page is marked referenced. */
  lemma {:induction false} AllReferenced(
      alg: Algorithm, stamp: nat -> nat,
      ss: seq<State>, trace: seq<Ref>, ds: seq<Decision>, gs: seq<Globals>,
      swapSize: nat, junk: seq<Content>, p: nat, n: nat)
    requires alg.FifoAlg? || alg.OptAlg?
    requires IsRunOf(alg, stamp, ss, trace, ds, gs) && ss[0] == Initial(swapSize, junk)
    requires n <= |trace| && p < PAGES
    ensures Sized(ss[n]) && (ss[n].table[p].valid ==> ss[n].table[p].ref)
  {
    hide Next, Loaded, OptVictim, Stamps, PageOf, FreeFrame, Inv;
    if n > 0 {
      var s, t := ss[n - 1], ss[n];
      AllReferenced(alg, stamp, ss, trace, ds, gs, swapSize, junk, p, n - 1);
      assert StepAt(ss, trace, ds, n - 1) && AnswersAt(alg, stamp, ss, trace, ds, gs, n - 1);
      StepOwners(s, trace[n - 1], ds[n - 1], t);
      StepEntries(s, trace[n - 1], ds[n - 1], t, p);
      RunKeepsInv(ss, trace, ds, n);
      InvIsSized(t);
    }
  }

  lemma InvIsSized(s: State)
    requires Inv(s)
    ensures Sized(s)
  {
  }

  // ------------------------------------------------------------ any policy

  /** Reducer and simulator cut the same addresses into the same pages. */
  lemma SamePages(lines: seq<Fastslim.Line>, trace: seq<Ref>)
    requires |lines| == |trace|
    requires forall i | 0 <= i < |trace| :: lines[i].pg * 4096 <= trace[i].vaddr < (lines[i].pg + 1) * 4096
    ensures Fastslim.PagesOf(lines) == Pages(trace)
  {
    forall i | 0 <= i < |trace| ensures Fastslim.PagesOf(lines)[i] == Pages(trace)[i] {
      assert trace[i].vaddr / 4096 == lines[i].pg;
    }
  }

  /** A reducer pass over the addresses of a trace bounds the simulator from below: with at most as many
      frames as the buffer holds, every policy misses at least once per flush and once more. */
  lemma FlushesBoundSimulator(
      lines: seq<Fastslim.Line>, k: nat, trace: seq<Ref>,
      ss: seq<State>, ds: seq<Decision>, swapSize: nat, junk: seq<Content>)
    requires IsRun(ss, trace, ds) && ss[0] == Initial(swapSize, junk) && trace != []
    requires |lines| == |trace| && 0 < |junk| <= k
    requires forall i | 0 <= i < |trace| :: lines[i].pg * 4096 <= trace[i].vaddr < (lines[i].pg + 1) * 4096
    ensures ss[|trace|].count.misses >= Fastslim.After(lines, k, |lines|).flushes + 1
  {
    hide Next, Inv, Misses, Initial, Fastslim.PagesOf, Pages;
    MissesOverRun(ss, trace, ds, swapSize, junk);
    SamePages(lines, trace);
    Fastslim.EveryFlushForcesAMiss(lines, Victims(ds), |junk|, k);
  }

  lemma RunOfIsRun(
      alg: Algorithm, stamp: nat -> nat, ss: seq<State>, trace: seq<Ref>, ds: seq<Decision>, gs: seq<Globals>)
    requires IsRunOf(alg, stamp, ss, trace, ds, gs)
    ensures IsRun(ss, trace, ds) && |gs| == |ss|
  {
  }

  lemma RunOfNothing(alg: Algorithm, stamp: nat -> nat, s: State, g: Globals)
    requires Inv(s)
    ensures IsRunOf(alg, stamp, [s], [], [], [g])
  {
  }

  /** One more reference makes a run longer. */
  lemma ExtendRun(
      alg: Algorithm, stamp: nat -> nat,
      ss: seq<State>, trace: seq<Ref>, ds: seq<Decision>, gs: seq<Globals>,
      r: Ref, d: Decision, t: State, g: Globals)
    requires IsRunOf(alg, stamp, ss, trace, ds, gs)
    requires Next(ss[|trace|], r, d, t) && Answers(alg, stamp, ss[|trace|], r, d, gs[|trace|], g)
    ensures IsRunOf(alg, stamp, ss + [t], trace + [r], ds + [d], gs + [g])
  {
    hide Next, Answers, Inv;
    var n, ss', trace', ds', gs' := |trace|, ss + [t], trace + [r], ds + [d], gs + [g];
    forall i: nat | i < n + 1 ensures StepAt(ss', trace', ds', i) && AnswersAt(alg, stamp, ss', trace', ds', gs', i) {
      if i < n {
        assert StepAt(ss, trace, ds, i) && AnswersAt(alg, stamp, ss, trace, ds, gs, i);
      }
    }
  }
}
