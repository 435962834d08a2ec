/** The paging state machine of pagetable.c, swap.c and sim.c, one function per
    step of the C code, on values. `Simulator` runs the same steps in place. */
module Paging {
  import opened Options
  import opened Addresses
  import opened Bitmaps

  const SIMPAGESIZE := 16

  /** The content of a simulated page: the version word and the stored address. */
  datatype Content = Content(version: int, tag: nat)

  datatype Counters = Counters(hits: nat, misses: nat, refs: nat, clean: nat, dirty: nat)

  /** `owner` is the coremap: the page whose entry a frame points back to, if the frame is in use.
      `swap` is the swap file by slot and `taken` the slots marked in its bitmap. */
  datatype State = State(
    table: seq<Entry>,
    owner: seq<Option<nat>>,
    mem: seq<Content>,
    swap: map<nat, Content>,
    taken: set<nat>,
    swapSize: nat,
    count: Counters)

  /** What a replacement policy answers when it is asked for a victim: a frame, and
      the pages whose reference bit it cleared on the way. */
  datatype Decision = Decision(victim: nat, cleared: set<nat>)

  /** What an access sees: the version word it finds and whether the stored address matches. */
  datatype Access = Access(state: State, version: int, tagOk: bool)

  /** The state main builds before the first reference; memory holds whatever malloc returned. */
  function Initial(swapSize: nat, junk: seq<Content>): (s: State)
    ensures Inv(s)
  {
    State(seq(PAGES, _ => FRESH), seq(|junk|, _ => None), junk, map[], {}, swapSize, Counters(0, 0, 0, 0, 0))
  }

  // ------------------------------------------------------------ invariant

  predicate Sized(s: State) {
    |s.table| == PAGES && |s.owner| == |s.mem|
  }

  /** Frames in use and valid entries pair off: each points at the other. */
  ghost predicate Paired(s: State) {
    && Sized(s)
    && (forall f | 0 <= f < |s.owner| && s.owner[f].Some? ::
          s.owner[f].value < PAGES && s.table[s.owner[f].value].valid && s.table[s.owner[f].value].frame == f)
    && (forall p | 0 <= p < PAGES && s.table[p].valid ::
          s.table[p].frame < |s.owner| && s.owner[s.table[p].frame] == Some(p))
  }

  predicate FlagsOk(e: Entry) {
    && (e.valid ==> !e.onSwap)
    && (e.onSwap ==> !e.dirty && e.swapOff != INVALID_SWAP)
  }

  ghost predicate Flagged(s: State) {
    forall p | 0 <= p < |s.table| :: FlagsOk(s.table[p])
  }

  predicate HasSlot(e: Entry) {
    e.swapOff != INVALID_SWAP
  }

  /** The slot behind a byte offset in the swap file. */
  function SlotAt(off: int): int {
    off / SIMPAGESIZE
  }

  predicate OwnsSlot(s: State, p: nat, k: nat)
    requires p < |s.table|
  {
    s.table[p].swapOff == k * SIMPAGESIZE
  }

  /** Marked slots are exactly the offsets of entries, one slot per entry, and each has been written. */
  ghost predicate Slotted(s: State) {
    && (forall p | 0 <= p < |s.table| && HasSlot(s.table[p]) ::
          var off := s.table[p].swapOff;
          off >= 0 && off % SIMPAGESIZE == 0 && SlotAt(off) in s.taken && SlotAt(off) in s.swap)
    && (forall p, q | 0 <= p < |s.table| && 0 <= q < |s.table| && HasSlot(s.table[p]) &&
                      s.table[p].swapOff == s.table[q].swapOff :: p == q)
    && (forall k | k in s.taken :: k < s.swapSize && exists p: nat | p < |s.table| :: OwnsSlot(s, p, k))
  }

  ghost predicate Inv(s: State) {
    Paired(s) && Flagged(s) && Slotted(s)
  }

  // ---------------------------------------------------------------- steps

  predicate IsWrite(kind: char) {
    kind == 'M' || kind == 'S'
  }

  /** The lowest frame not in use, at or after `i`. */
  function FreeFrame(owner: seq<Option<nat>>, i: nat): (r: Option<nat>)
    requires i <= |owner|
    ensures r.Some? ==> i <= r.value < |owner| && owner[r.value].None?
    ensures r.Some? ==> forall j | i <= j < r.value :: owner[j].Some?
    ensures r.None? ==> forall j | i <= j < |owner| :: owner[j].Some?
    decreases |owner| - i
  {
    if i == |owner| then None else if owner[i].None? then Some(i) else FreeFrame(owner, i + 1)
  }

  lemma FreeFrameIs(owner: seq<Option<nat>>, f: nat)
    requires f < |owner| && owner[f].None? && forall j | 0 <= j < f :: owner[j].Some?
    ensures FreeFrame(owner, 0) == Some(f)
  {
  }

  function ClearRefs(table: seq<Entry>, pages: set<nat>): (t: seq<Entry>)
    ensures |t| == |table|
    ensures forall q | 0 <= q < |t| :: t[q] == if q in pages then table[q].(ref := false) else table[q]
  {
    seq(|table|, q requires 0 <= q < |table| => if q in pages then table[q].(ref := false) else table[q])
  }

  /** Steps that leave the swap side alone keep its invariant. */
  lemma SameSlots(s: State, t: State)
    requires Slotted(s) && |t.table| == |s.table| && t.taken == s.taken && t.swapSize == s.swapSize
    requires s.swap.Keys <= t.swap.Keys
    requires forall q | 0 <= q < |s.table| :: t.table[q].swapOff == s.table[q].swapOff
    ensures Slotted(t)
  {
    forall k | k in t.taken ensures k < t.swapSize && exists q: nat | q < |t.table| :: OwnsSlot(t, q, k) {
      var q: nat :| q < |s.table| && OwnsSlot(s, q, k);
      assert OwnsSlot(t, q, k);
    }
  }

  /** Marking the victim's entry invalid and giving up its frame. */
  function Unmap(s: State, f: nat): (r: State)
    requires Inv(s) && f < |s.owner| && s.owner[f].Some?
    ensures Inv(r)
  {
    var p := s.owner[f].value;
    var r := s.(owner := s.owner[f := None], table := s.table[p := s.table[p].(valid := false)]);
    SameSlots(s, r);
    r
  }

  /** Where swap_pageout puts a page: its own slot, or else the lowest free one, if there is one. */
  function SlotFor(s: State, e: Entry): (r: Option<nat>)
    requires HasSlot(e) ==> e.swapOff >= 0
    ensures r.None? ==> !HasSlot(e) && forall k: nat | k < s.swapSize :: k in s.taken
    ensures r.Some? && !HasSlot(e) ==> r.value < s.swapSize && r.value !in s.taken
  {
    if HasSlot(e) then Some(SlotAt(e.swapOff)) else FirstFree(s.taken, 0, s.swapSize)
  }

  /** The dirty branch of an eviction: write frame `f` to slot `k` for page `p` and count it. */
  function WriteBack(s: State, p: nat, f: nat, k: nat): (r: State)
    requires Inv(s) && p < PAGES && !s.table[p].valid && f < |s.mem|
    requires SlotFor(s, s.table[p]) == Some(k)
    ensures Inv(r)
  {
    var r := s.(taken := s.taken + {k}, swap := s.swap[k := s.mem[f]],
                table := s.table[p := s.table[p].(swapOff := k * SIMPAGESIZE, dirty := false, onSwap := true)],
                count := s.count.(dirty := s.count.dirty + 1));
    WriteBackKeepsSlots(s, r, p, k);
    r
  }

  lemma WriteBackKeepsSlots(s: State, t: State, p: nat, k: nat)
    requires Slotted(s) && p < |s.table| && SlotFor(s, s.table[p]) == Some(k)
    requires |t.table| == |s.table| && t.swapSize == s.swapSize
    requires t.taken == s.taken + {k} && t.swap.Keys == s.swap.Keys + {k}
    requires OwnsSlot(t, p, k)
    requires forall q | 0 <= q < |s.table| && q != p :: t.table[q].swapOff == s.table[q].swapOff
    ensures Slotted(t)
  {
    if HasSlot(s.table[p]) {
      assert t.table[p].swapOff == s.table[p].swapOff && t.taken == s.taken;
      SameSlots(s, t);
    } else {
      FreshSlot(s, t, p, k);
    }
  }

  lemma FreshSlot(s: State, t: State, p: nat, k: nat)
    requires Slotted(s) && p < |s.table| && k !in s.taken && k < s.swapSize
    requires |t.table| == |s.table| && t.swapSize == s.swapSize
    requires t.taken == s.taken + {k} && t.swap.Keys == s.swap.Keys + {k}
    requires OwnsSlot(t, p, k) && !HasSlot(s.table[p])
    requires forall q | 0 <= q < |s.table| && q != p :: t.table[q].swapOff == s.table[q].swapOff
    ensures Slotted(t)
  {
    forall q | 0 <= q < |t.table| && HasSlot(t.table[q])
      ensures t.table[q].swapOff >= 0 && t.table[q].swapOff % SIMPAGESIZE == 0
      ensures SlotAt(t.table[q].swapOff) in t.taken && SlotAt(t.table[q].swapOff) in t.swap
      ensures q != p ==> SlotAt(t.table[q].swapOff) != k
    {
      assert q != p ==> SlotAt(s.table[q].swapOff) in s.taken;
    }
    forall j | j in t.taken ensures j < t.swapSize && exists q: nat | q < |t.table| :: OwnsSlot(t, q, j) {
      if j != k {
        var q: nat :| q < |s.table| && OwnsSlot(s, q, j);
        assert OwnsSlot(t, q, j);
      }
    }
  }

  /** The eviction half of allocate_frame: invalidate the victim's entry, write a dirty victim
      out, count the eviction, and give up the frame. None when swap is full. */
  function Evict(s: State, f: nat): (r: Option<State>)
    requires Inv(s) && f < |s.owner| && s.owner[f].Some?
    ensures r.Some? ==> Inv(r.value)
    ensures r.Some? ==> |r.value.owner| == |s.owner| && r.value.owner[f].None?
    ensures r.Some? ==> forall p | 0 <= p < PAGES && !s.table[p].valid :: !r.value.table[p].valid
  {
    var p := s.owner[f].value;
    var s1 := Unmap(s, f);
    if s1.table[p].onSwap then
      Some(s1)
    else if s1.table[p].dirty then
      match SlotFor(s1, s1.table[p])
      case None => None
      case Some(k) => Some(WriteBack(s1, p, f, k))
    else
      var s2 := s1.(count := s1.count.(clean := s1.count.clean + 1));
      SameSlots(s1, s2);
      Some(s2)
  }

  lemma VictimFacts(s: State, f: nat)
    requires Inv(s) && f < |s.owner| && s.owner[f].Some?
    ensures s.owner[f].value < |s.table| == PAGES && |s.owner| == |s.mem|
    ensures var e := s.table[s.owner[f].value];
      && !e.onSwap
      && (HasSlot(e) ==>
            e.swapOff >= 0 && SlotAt(e.swapOff) * SIMPAGESIZE == e.swapOff && SlotAt(e.swapOff) in s.taken)
  {
  }

  /** What writing a victim out makes of the state before its eviction. */
  lemma WriteBackForm(s: State, f: nat, k: nat)
    requires Inv(s) && f < |s.owner| && s.owner[f].Some? && s.owner[f].value < |s.table|
    requires var t := Unmap(s, f);
      s.owner[f].value < |t.table| && f < |t.mem| && SlotFor(t, t.table[s.owner[f].value]) == Some(k)
    requires s.owner[f].value < PAGES
    ensures var p, e := s.owner[f].value, s.table[s.owner[f].value];
      WriteBack(Unmap(s, f), p, f, k) == s.(
        owner := s.owner[f := None],
        table := s.table[p := Entry(e.frame, false, false, e.ref, true, k * SIMPAGESIZE)],
        swap := s.swap[k := s.mem[f]], taken := s.taken + {k},
        count := s.count.(dirty := s.count.dirty + 1))
  {
    hide Flagged, Slotted;
    var p, t := s.owner[f].value, Unmap(s, f);
    var x := WriteBack(t, p, f, k).table[p];
    assert t.table[p := x] == s.table[p := x];
  }

  /** An eviction written out: a resident page is never marked on swap, so it is either written to its
      slot, the lowest free one if it has none, or counted as clean. */
  lemma EvictForm(s: State, f: nat)
    requires Inv(s) && f < |s.owner| && s.owner[f].Some?
    ensures var p := s.owner[f].value;
      var e := s.table[p];
      var s1 := s.(owner := s.owner[f := None]);
      && !e.onSwap && (HasSlot(e) ==> e.swapOff >= 0)
      && if !e.dirty then
           Evict(s, f) == Some(s1.(table := s.table[p := e.(valid := false)],
                                   count := s.count.(clean := s.count.clean + 1)))
         else
           match if HasSlot(e) then Some(SlotAt(e.swapOff) as nat) else FirstFree(s.taken, 0, s.swapSize)
           case None => Evict(s, f) == None
           case Some(k) =>
             && (HasSlot(e) ==> k * SIMPAGESIZE == e.swapOff && k in s.taken)
             && Evict(s, f) == Some(s1.(
                  table := s.table[p := Entry(e.frame, false, false, e.ref, true, k * SIMPAGESIZE)],
                  swap := s.swap[k := s.mem[f]], taken := s.taken + {k},
                  count := s.count.(dirty := s.count.dirty + 1)))
  {
    hide Inv, WriteBack, FirstFree;
    VictimFacts(s, f);
    var p := s.owner[f].value;
    var t := Unmap(s, f);
    assert t.table[p] == s.table[p].(valid := false);
    if s.table[p].dirty && SlotFor(t, t.table[p]).Some? {
      WriteBackForm(s, f, SlotFor(t, t.table[p]).value);
    }
  }

  /** The rest of a miss: fill the frame from swap or with zeros, point it and the entry at
      each other, and count the miss. The entry's old flags are overwritten. */
  function Load(s: State, f: nat, vaddr: nat): (r: State)
    requires Inv(s) && vaddr < ADDRESS_LIMIT && !s.table[PageOf(vaddr)].valid
    requires f < |s.owner| && s.owner[f].None?
    ensures Inv(r)
  {
    var p := PageOf(vaddr);
    var e := s.table[p];
    var c := if e.onSwap then s.swap[SlotAt(e.swapOff)] else Content(0, vaddr);
    var r := s.(owner := s.owner[f := Some(p)],
                mem := s.mem[f := c],
                table := s.table[p := Entry(f, true, false, false, false, e.swapOff)],
                count := s.count.(misses := s.count.misses + 1, refs := s.count.refs + 1));
    SameSlots(s, r);
    r
  }

  /** A hit only counts. */
  function Hit(s: State): (r: State)
    requires Inv(s)
    ensures Inv(r)
  {
    var r := s.(count := s.count.(hits := s.count.hits + 1, refs := s.count.refs + 1));
    SameSlots(s, r);
    r
  }

  /** The end of find_physpage and access_mem: set the flags, bump the version on a write. */
  function Touch(s: State, vaddr: nat, kind: char): (r: State)
    requires Inv(s) && vaddr < ADDRESS_LIMIT && s.table[PageOf(vaddr)].valid
    ensures Inv(r)
  {
    var p := PageOf(vaddr);
    var e := s.table[p];
    var c := s.mem[e.frame];
    var r := if IsWrite(kind) then
      s.(table := s.table[p := e.(ref := true, dirty := true)],
         mem := s.mem[e.frame := c.(version := c.version + 1)])
    else
      s.(table := s.table[p := e.(ref := true)]);
    SameSlots(s, r);
    r
  }

  /** The policy's own effect on the page table: it may clear reference bits. */
  function Sweep(s: State, pages: set<nat>): (r: State)
    requires Inv(s)
    ensures Inv(r)
  {
    var r := s.(table := ClearRefs(s.table, pages));
    SameSlots(s, r);
    r
  }

  lemma SweepOne(s: State, p: nat)
    requires Inv(s) && p < PAGES
    ensures Sweep(s, {p}) == s.(table := s.table[p := s.table[p].(ref := false)])
  {
    assert ClearRefs(s.table, {p}) == s.table[p := s.table[p].(ref := false)];
  }

  lemma SweepTwice(s: State, a: set<nat>, b: set<nat>)
    requires Inv(s)
    ensures Sweep(Sweep(s, a), b) == Sweep(s, a + b)
    ensures Sweep(s, {}) == s
  {
    assert ClearRefs(ClearRefs(s.table, a), b) == ClearRefs(s.table, a + b);
    assert ClearRefs(s.table, {}) == s.table;
  }

  /** A free frame and the state in which it is free: the lowest one, or the policy's victim. */
  function Vacate(s: State, d: Decision): (r: Option<(State, nat)>)
    requires Inv(s) && d.victim < |s.owner|
    ensures r.Some? ==> Inv(r.value.0) && r.value.1 < |s.owner| == |r.value.0.owner| && r.value.0.owner[r.value.1].None?
    ensures r.Some? ==> forall p | 0 <= p < PAGES && !s.table[p].valid :: !r.value.0.table[p].valid
  {
    match FreeFrame(s.owner, 0)
    case Some(f) => Some((s, f))
    case None =>
      match Evict(Sweep(s, d.cleared), d.victim)
      case None => None
      case Some(s1) => Some((s1, d.victim))
  }

  /** find_physpage up to the point where the page is resident. None when swap is full. */
  function Fetch(s: State, vaddr: nat, d: Decision): (r: Option<State>)
    requires Inv(s) && vaddr < ADDRESS_LIMIT && d.victim < |s.owner|
    ensures r.Some? ==> Inv(r.value) && |r.value.owner| == |s.owner| && r.value.table[PageOf(vaddr)].valid
  {
    if s.table[PageOf(vaddr)].valid then
      Some(Hit(s))
    else
      match Vacate(s, d)
      case None => None
      case Some((s1, f)) => Some(Load(s1, f, vaddr))
  }

  /** access_mem: fetch the page, compare the stored address, read the version and maybe bump it. */
  function Step(s: State, kind: char, vaddr: nat, d: Decision): (r: Option<Access>)
    requires Inv(s) && vaddr < ADDRESS_LIMIT && d.victim < |s.owner|
    ensures r.Some? ==> Inv(r.value.state) && |r.value.state.owner| == |s.owner|
  {
    match Fetch(s, vaddr, d)
    case None => None
    case Some(s1) =>
      var c := s1.mem[s1.table[PageOf(vaddr)].frame];
      Some(Access(Touch(s1, vaddr, kind), c.version, c.tag == vaddr))
  }
}
