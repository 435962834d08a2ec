/** The simulator as the C program runs it: page table, coremap, physical memory, swap file,
    bitmap, counters and the algorithms' globals, all updated in place. */
module Simulator {
  import opened Options
  import opened Words
  import opened Bitmaps
  import opened Addresses
  import opened Paging
  import opened Runs
  import opened Bookkeeping
  import opened Residency
  import opened Optimal
  import opened Policies
  import opened OptAsBuilt
  import opened SwapUse
  import opened Transparency
  import C = Clock

  /** A coremap entry. The pointer back to the page-table entry is the entry's place in the two-level
      table, that is, its page number. */
  datatype Frame = Frame(inUse: bool, pte: nat)

  class Machine {
    const memsize: nat
    const alg: Algorithm
    const stamp: nat -> nat
    const pgdir: array<Option<seq<Pte>>>
    const coremap: array<Frame>
    const physmem: array<Content>
    const swapmap: Bitmap
    var swapfile: map<nat, Content>
    var hitCount: nat
    var missCount: nat
    var refCount: nat
    var evictCleanCount: nat
    var evictDirtyCount: nat
    var ind: nat
    var clock: nat
    var head: seq<nat>

    // ---------------------------------------------------------- abstraction

    /** Sizes, distinct arrays, and entries that are 32-bit words. */
    ghost predicate Shape()
      reads pgdir, coremap, physmem, swapmap.v
    {
      && 0 < memsize <= 0x10_0000
      && pgdir.Length == PTRS_PER_PGDIR && coremap.Length == memsize == physmem.Length
      && swapmap.Valid()
      && pgdir as object != coremap && pgdir as object != physmem && coremap as object != physmem
      && swapmap.v as object != pgdir && swapmap.v as object != coremap && swapmap.v as object != physmem
      && forall d | 0 <= d < PTRS_PER_PGDIR && pgdir[d].Some? :: IsTable(pgdir[d].value)
    }

    static ghost predicate IsTable(t: seq<Pte>) {
      |t| == PTRS_PER_PGTBL && forall i | 0 <= i < |t| :: t[i].word < WORD_LIMIT
    }

    /** The entry of page `p`; a page without a second-level table reads as a new entry. */
    ghost function PteAt(p: nat): Pte
      requires Shape() && p < PAGES
      reads pgdir, coremap, physmem, swapmap.v
    {
      match pgdir[p / PTRS_PER_PGTBL]
      case None => NEW_PTE
      case Some(t) => t[p % PTRS_PER_PGTBL]
    }

    ghost function Table(): (t: seq<Entry>)
      requires Shape()
      reads pgdir, coremap, physmem, swapmap.v
      ensures |t| == PAGES
    {
      seq(PAGES, p requires 0 <= p < PAGES && Shape() reads pgdir, coremap, physmem, swapmap.v =>
        Decode(PteAt(p)))
    }

    ghost function Owners(): (o: seq<Option<nat>>)
      requires Shape()
      reads pgdir, coremap, physmem, swapmap.v
      ensures |o| == memsize
    {
      seq(memsize, f requires 0 <= f < memsize && Shape() reads pgdir, coremap, physmem, swapmap.v =>
        if coremap[f].inUse then Some(coremap[f].pte) else None)
    }

    ghost function Count(): Counters
      reads `hitCount, `missCount, `refCount, `evictCleanCount, `evictDirtyCount
    {
      Counters(hitCount, missCount, refCount, evictCleanCount, evictDirtyCount)
    }

    /** The state of the value-level machine this machine stands for. */
    ghost function Abs(): (s: State)
      requires Shape()
      reads pgdir, coremap, physmem, swapmap.v
      reads `swapfile, `hitCount, `missCount, `refCount, `evictCleanCount, `evictDirtyCount
      ensures |s.owner| == memsize == |s.mem| && |s.table| == PAGES
    {
      State(Table(), Owners(), physmem[..], swapfile, swapmap.Marked(), swapmap.nbits, Count())
    }

    ghost function Gs(): Globals
      reads `ind, `clock, `head
    {
      Globals(ind, clock, head)
    }

    ghost predicate Valid()
      reads pgdir, coremap, physmem, swapmap.v
      reads `swapfile, `hitCount, `missCount, `refCount, `evictCleanCount, `evictDirtyCount
    {
      Shape() && Inv(Abs())
    }

    /** What main sets up: no tables, free frames, memory as malloc left it, an empty swap file. */
    constructor (alg: Algorithm, stamp: nat -> nat, memsize: nat, swapSize: nat, junk: seq<Content>, head: seq<nat>)
      requires 0 < memsize <= 0x10_0000 && |junk| == memsize
      ensures Valid() && Abs() == Initial(swapSize, junk) && Gs() == Globals(0, 0, head)
      ensures this.memsize == memsize && this.alg == alg && this.stamp == stamp
      ensures fresh(pgdir) && fresh(coremap) && fresh(physmem) && fresh(swapmap.v)
    {
      this.alg, this.stamp, this.memsize, this.head := alg, stamp, memsize, head;
      pgdir := new Option<seq<Pte>>[PTRS_PER_PGDIR](_ => None);
      coremap := new Frame[memsize](_ => Frame(false, 0));
      physmem := new Content[memsize](i requires 0 <= i < memsize => junk[i]);
      swapmap := new Bitmap(swapSize);
      swapfile := map[];
      hitCount, missCount, refCount, evictCleanCount, evictDirtyCount := 0, 0, 0, 0, 0;
      ind, clock := 0, 0;
      new;
      hide Initial, Inv, Abs;
      assert physmem[..] == junk;
      NothingYet(swapSize, junk);
    }

    lemma NothingYet(swapSize: nat, junk: seq<Content>)
      requires Shape() && |junk| == memsize && physmem[..] == junk
      requires forall d | 0 <= d < pgdir.Length :: pgdir[d].None?
      requires forall f | 0 <= f < memsize :: !coremap[f].inUse
      requires swapfile == map[] && swapmap.Marked() == {} && swapmap.nbits == swapSize
      requires Count() == Counters(0, 0, 0, 0, 0)
      ensures Inv(Abs()) && Abs() == Initial(swapSize, junk)
    {
      NewPteIsFresh();
      assert Table() == seq(PAGES, _ => FRESH);
      assert Owners() == seq(memsize, _ => None);
    }

    // ------------------------------------------------------- page-table words

    /** `pgdir[d] = init_second_level()`: a new table changes no entry. */
    method InitSecondLevel(d: nat)
      requires Shape() && d < PTRS_PER_PGDIR && pgdir[d].None?
      modifies pgdir
      ensures Shape() && pgdir[d].Some?
      ensures Abs() == old(Abs())
    {
      NewPteIsFresh();
      pgdir[d] := Some(seq(PTRS_PER_PGTBL, _ => NEW_PTE));
      forall p | 0 <= p < PAGES ensures PteAt(p) == old(PteAt(p)) {
      }
      assert Table() == old(Table());
      assert Owners() == old(Owners());
    }

    /** Reading through an entry pointer. */
    method GetPte(p: nat) returns (e: Pte)
      requires Shape() && p < PAGES && pgdir[p / PTRS_PER_PGTBL].Some?
      ensures e == PteAt(p) && e.word < WORD_LIMIT
    {
      e := pgdir[p / PTRS_PER_PGTBL].value[p % PTRS_PER_PGTBL];
    }

    /** Writing through an entry pointer changes that entry and nothing else. */
    method SetPte(p: nat, e: Pte)
      requires Shape() && p < PAGES && pgdir[p / PTRS_PER_PGTBL].Some? && e.word < WORD_LIMIT
      modifies pgdir
      ensures Shape() && pgdir[p / PTRS_PER_PGTBL].Some? && PteAt(p) == e
      ensures forall d | 0 <= d < pgdir.Length :: pgdir[d].Some? == old(pgdir[d].Some?)
      ensures Abs() == old(Abs()).(table := old(Table())[p := Decode(e)])
    {
      var d, i := p / PTRS_PER_PGTBL, p % PTRS_PER_PGTBL;
      pgdir[d] := Some(pgdir[d].value[i := e]);
      forall q | 0 <= q < PAGES ensures PteAt(q) == if q == p then e else old(PteAt(q)) {
      }
      assert Table() == old(Table())[p := Decode(e)];
      assert Owners() == old(Owners());
    }

    /** Page `p` has a second-level table. */
    ghost predicate HasTable(p: nat)
      reads pgdir
    {
      p < PAGES && p / PTRS_PER_PGTBL < pgdir.Length && pgdir[p / PTRS_PER_PGTBL].Some?
    }

    /** `p->frame & flag`. */
    method TestFlag(p: nat, flag: nat) returns (b: bool)
      requires Shape() && HasTable(p) && IsFlag(flag)
      ensures b == FlagOf(Abs().table[p], flag)
    {
      var e := GetPte(p);
      b := HasFlag(e.word, flag);
    }

    /** `p->frame |= flag`. */
    method RaiseFlag(p: nat, flag: nat)
      requires Shape() && HasTable(p) && IsFlag(flag)
      modifies pgdir
      ensures Shape() && HasTable(p)
      ensures Abs() == old(Abs()).(table := old(Abs()).table[p := WithFlag(old(Abs()).table[p], flag, true)])
      ensures forall d | 0 <= d < pgdir.Length :: pgdir[d].Some? == old(pgdir[d].Some?)
    {
      hide Decode;
      var e := GetPte(p);
      DecodeSet(e, flag);
      SetPte(p, e.(word := Or(e.word, flag)));
    }

    /** `p->frame &= ~flag`. */
    method LowerFlag(p: nat, flag: nat)
      requires Shape() && HasTable(p) && IsFlag(flag)
      modifies pgdir
      ensures Shape() && HasTable(p)
      ensures Abs() == old(Abs()).(table := old(Abs()).table[p := WithFlag(old(Abs()).table[p], flag, false)])
      ensures forall d | 0 <= d < pgdir.Length :: pgdir[d].Some? == old(pgdir[d].Some?)
    {
      hide Decode;
      var e := GetPte(p);
      DecodeClear(e, flag);
      SetPte(p, e.(word := And(e.word, Not(flag))));
    }

    /** `p->swap_off`. */
    method GetSwapOff(p: nat) returns (off: int)
      requires Shape() && HasTable(p)
      ensures off == Abs().table[p].swapOff
    {
      var e := GetPte(p);
      off := e.swapOff;
    }

    /** `p->frame >> PAGE_SHIFT`. */
    method GetFrame(p: nat) returns (frame: nat)
      requires Shape() && HasTable(p)
      ensures frame == Abs().table[p].frame
    {
      var e := GetPte(p);
      frame := FrameOf(e.word);
    }

    /** `p->swap_off = off`. */
    method SetSwapOff(p: nat, off: int)
      requires Shape() && HasTable(p)
      modifies pgdir
      ensures Shape() && HasTable(p)
      ensures Abs() == old(Abs()).(table := old(Abs()).table[p := old(Abs()).table[p].(swapOff := off)])
      ensures forall d | 0 <= d < pgdir.Length :: pgdir[d].Some? == old(pgdir[d].Some?)
    {
      var e := GetPte(p);
      SetPte(p, e.(swapOff := off));
    }

    /** `p->frame = frame << PAGE_SHIFT`: all flags are overwritten. */
    method SetFrame(p: nat, frame: nat)
      requires Shape() && HasTable(p) && frame < memsize
      modifies pgdir
      ensures Shape() && HasTable(p)
      ensures Abs() == old(Abs()).(table :=
        old(Abs()).table[p := Entry(frame, false, false, false, false, old(Abs()).table[p].swapOff)])
      ensures forall d | 0 <= d < pgdir.Length :: pgdir[d].Some? == old(pgdir[d].Some?)
    {
      var e := GetPte(p);
      FrameWord(frame * PAGE_SIZE, frame, e.swapOff);
      SetPte(p, e.(word := frame * PAGE_SIZE));
    }

    // ------------------------------------------------- replacement algorithms

    /** A page some frame points at has a second-level table. */
    lemma OwnedHasTable(f: nat)
      requires Valid() && f < memsize && coremap[f].inUse
      ensures f < coremap.Length && HasTable(coremap[f].pte) && coremap[f].pte < PAGES
      ensures Abs().owner[f] == Some(coremap[f].pte) && Abs().table[coremap[f].pte].valid
    {
      NewPteIsFresh();
      assert Owners()[f] == Some(coremap[f].pte);
      assert Table()[coremap[f].pte].valid;
    }

    /** Every frame is in use. */
    ghost predicate Full()
      reads pgdir, coremap, physmem, swapmap.v
      reads `swapfile, `hitCount, `missCount, `refCount, `evictCleanCount, `evictDirtyCount
    {
      Valid() && forall f | 0 <= f < memsize :: coremap[f].inUse
    }

    method FifoEvict() returns (evicted: nat)
      requires Shape() && ind < memsize
      modifies this`ind
      ensures evicted == old(ind) && ind == (old(ind) + 1) % memsize
      ensures Shape() && Abs() == old(Abs())
    {
      evicted := ind;
      ind := (ind + 1) % memsize;
    }

    /** `coremap[f].pte->frame & PG_REF`. */
    method IsReferenced(f: nat) returns (b: bool)
      requires Full() && f < memsize
      ensures b == C.RefBits(Abs())[f]
    {
      OwnedHasTable(f);
      assert Owners()[f] == Some(coremap[f].pte);
      b := TestFlag(coremap[f].pte, PG_REF);
    }

    /** `coremap[f].pte->frame &= ~PG_REF`. */
    method ClearReferenced(f: nat)
      requires Full() && f < memsize
      modifies pgdir
      ensures Full() && Abs() == Paging.Sweep(old(Abs()), {coremap[f].pte})
      ensures C.RefBits(Abs()) == old(C.RefBits(Abs()))[f := false]
      ensures forall d | 0 <= d < pgdir.Length :: pgdir[d].Some? == old(pgdir[d].Some?)
    {
      hide Inv, Paging.Sweep, C.RefBits;
      OwnedHasTable(f);
      var p := coremap[f].pte;
      SweepOne(old(Abs()), p);
      SweptBits(old(Abs()), f, p);
      LowerFlag(p, PG_REF);
    }

    static lemma SweptBits(s: State, f: nat, p: nat)
      requires Inv(s) && f < |s.owner| && s.owner[f] == Some(p)
      ensures C.RefBits(Paging.Sweep(s, {p})) == C.RefBits(s)[f := false]
    {
    }

    lemma FullShape()
      requires Full()
      ensures Shape() && Inv(Abs())
    {
    }

    /** The hand passes frame `f` and clears its bit; `s` is the state before the sweep. */
    method PassFrame(f: nat, ghost s: State, ghost cleared: set<nat>, ghost passed: set<nat>)
      returns (ghost more: set<nat>)
      requires Full() && f < memsize
      requires Inv(s) && Abs() == Paging.Sweep(s, cleared) && cleared == C.PagesHeld(s.owner, passed)
      modifies pgdir
      ensures Full() && Abs() == Paging.Sweep(s, more) && more == C.PagesHeld(s.owner, passed + {f})
      ensures C.RefBits(Abs()) == old(C.RefBits(Abs()))[f := false]
      ensures forall d | 0 <= d < pgdir.Length :: pgdir[d].Some? == old(pgdir[d].Some?)
    {
      hide C.RefBits, C.PagesHeld, Paging.Sweep, Abs, Inv;
      HeldBy(s, cleared, f);
      SweepTwice(s, cleared, {coremap[f].pte});
      C.PagesHeldByMore(s.owner, passed, f);
      more := cleared + {coremap[f].pte};
      ClearReferenced(f);
    }

    /** One round of the loop: the victim is found at the hand, or the hand moves on, past the end to frame 1. */
    method Round(ghost s: State, ghost cleared: set<nat>, ghost passed: set<nat>)
      returns (found: bool, ghost more: set<nat>, ghost beyond: set<nat>)
      requires Full() && memsize >= 2 && clock <= memsize
      requires Inv(s) && Abs() == Paging.Sweep(s, cleared) && cleared == C.PagesHeld(s.owner, passed)
      modifies this`clock, pgdir
      ensures Full() && Abs() == Paging.Sweep(s, more) && more == C.PagesHeld(s.owner, beyond)
      ensures var before := C.DoSweep(old(C.RefBits(Abs())), old(clock));
        if found then clock == old(clock) == before.victim && beyond == passed && before.passed == {}
        else
          && clock <= memsize
          && C.DoSweep(C.RefBits(Abs()), clock).victim == before.victim
          && beyond + C.DoSweep(C.RefBits(Abs()), clock).passed == passed + before.passed
      ensures found || C.Trues(C.RefBits(Abs())) < C.Trues(old(C.RefBits(Abs()))) ||
        (C.RefBits(Abs()) == old(C.RefBits(Abs())) && old(clock) == memsize && clock < memsize)
      ensures forall d | 0 <= d < pgdir.Length :: pgdir[d].Some? == old(pgdir[d].Some?)
    {
      hide C.DoSweep, C.Trues, C.RefBits, C.PagesHeld, Paging.Sweep, Abs, Inv, Shape, Full;
      FullShape();
      found, more, beyond := false, cleared, passed;
      C.SweepRound(C.RefBits(Abs()), clock);
      if clock < memsize {
        var referenced := IsReferenced(clock);
        if !referenced {
          found := true;
          return;
        }
        C.ClearOne(C.RefBits(Abs()), clock);
        more := PassFrame(clock, s, cleared, passed);
        beyond := passed + {clock};
      } else {
        clock := 0;
      }
      clock := clock + 1;
    }

    /** Sweeps until a clear bit turns up; the swept bits are cleared in the page table. */
    method ClockEvict() returns (victim: nat, ghost cleared: set<nat>)
      requires Full() && memsize >= 2 && clock < memsize
      modifies this`clock, pgdir
      ensures Full() && Abs() == Paging.Sweep(old(Abs()), cleared)
      ensures victim == clock == C.DoSweep(C.RefBits(old(Abs())), old(clock)).victim
      ensures cleared == C.PagesHeld(old(Abs()).owner, C.DoSweep(C.RefBits(old(Abs())), old(clock)).passed)
      ensures forall d | 0 <= d < pgdir.Length :: pgdir[d].Some? == old(pgdir[d].Some?)
    {
      hide C.DoSweep, C.Trues, C.RefBits, C.PagesHeld, Paging.Sweep, Abs, Inv, Shape, Full;
      FullShape();
      ghost var s, passed: set<nat> := Abs(), {};
      ghost var whole := C.DoSweep(C.RefBits(s), clock);
      cleared := C.PagesHeld(s.owner, {});
      NothingHeld();
      SweepTwice(s, {}, {});
      var found := false;
      while !found
        invariant clock <= memsize && Full() && Shape() && Inv(Abs())
        invariant Abs() == Paging.Sweep(s, cleared) && cleared == C.PagesHeld(s.owner, passed)
        invariant if found then clock == whole.victim && passed == whole.passed
                  else C.DoSweep(C.RefBits(Abs()), clock).victim == whole.victim
                       && passed + C.DoSweep(C.RefBits(Abs()), clock).passed == whole.passed
        invariant forall d | 0 <= d < pgdir.Length :: pgdir[d].Some? == old(pgdir[d].Some?)
        decreases !found, C.Trues(C.RefBits(Abs())), if clock == memsize then 1 else 0
      {
        found, cleared, passed := Round(s, cleared, passed);
        FullShape();
      }
      victim := clock;
    }

    static lemma NothingHeld()
      ensures forall owner :: C.PagesHeld(owner, {}) == {}
    {
    }

    lemma HeldBy(s: State, cleared: set<nat>, f: nat)
      requires Full() && f < memsize && Inv(s) && Abs() == Paging.Sweep(s, cleared)
      ensures f < |s.owner| && f < coremap.Length && s.owner[f] == Some(coremap[f].pte)
    {
      assert Owners()[f] == Some(coremap[f].pte);
    }

    /** How many references come before the next one to the address in the entry of page `p`; -1 if there
        is none. */
    method IsNextFrame(p: nat) returns (num: int)
      ensures num == match NextUse(stamp(p), head) case None => -1 case Some(n) => n
      ensures num == if stamp(p) in head then Distance(stamp(p), head) else -1
    {
      num := 0;
      var curr := 0;
      while curr < |head|
        invariant num == curr <= |head|
        invariant stamp(p) !in head[..curr]
      {
        if head[curr] == stamp(p) {
          NextUseIsFirst(stamp(p), head, curr);
          assert NextUse(stamp(p), head).value >= curr;
          return;
        }
        curr := curr + 1;
        num := num + 1;
      }
      assert head[..curr] == head;
      num := -1;
    }

    /** The pages the frames point at. */
    ghost function FramePages(): (f: seq<nat>)
      reads coremap
      ensures |f| == coremap.Length && forall i | 0 <= i < |f| :: f[i] == coremap[i].pte
    {
      seq(coremap.Length, i requires 0 <= i < coremap.Length reads coremap => coremap[i].pte)
    }

    /** The first frame whose page is not used again, or else the first with the furthest next use. */
    method OptEvict() returns (pfn: nat)
      requires memsize > 0 && coremap.Length == memsize
      ensures FramePages() != [] && pfn == OptVictim(Stamps(stamp, FramePages()), head)
    {
      hide NextUse, IsFurthest, Distance, FirstUnused;
      ghost var g := Stamps(stamp, FramePages());
      var longest := -1;
      pfn := 0;
      for i := 0 to memsize
        invariant longest == -1 <==> i == 0
        invariant forall j | 0 <= j < i :: g[j] in head
        invariant i > 0 ==> pfn == Furthest(g, head, i) && Distance(g[pfn], head) == longest
      {
        assert g[i] == stamp(coremap[i].pte);
        var current := IsNextFrame(coremap[i].pte);
        if current == -1 {
          FirstUnusedIs(g, head, i);
          pfn := i;
          return;
        } else if current > longest {
          longest := current;
          pfn := i;
        }
      }
    }

    /** Calling `evict_fcn`: some frame, and the reference bits it clears. */
    method EvictFcn() returns (frame: nat, ghost cleared: set<nat>)
      requires Full() && GlobalsOk(alg, memsize, Gs()) && (alg.ClockAlg? ==> memsize >= 2)
      modifies this`ind, this`clock, pgdir
      ensures frame < memsize
      ensures Full() && Abs() == Paging.Sweep(old(Abs()), cleared)
      ensures Chosen(alg, stamp, old(Abs()), Decision(frame, cleared), old(Gs()), Gs())
      ensures !alg.ClockAlg? ==> cleared == {} && Abs() == old(Abs())
      ensures forall d | 0 <= d < pgdir.Length :: pgdir[d].Some? == old(pgdir[d].Some?)
    {
      hide C.DoSweep, C.RefBits, C.PagesHeld, Paging.Sweep, Inv, OptVictim;
      cleared := {};
      SweepTwice(Abs(), {}, {});
      match alg
      case FifoAlg =>
        frame := FifoEvict();
      case ClockAlg =>
        frame, cleared := ClockEvict();
        C.PagesTellFrames(old(Abs()), C.DoSweep(C.RefBits(old(Abs())), old(clock)).passed);
      case OptAlg =>
        frame := OptEvict();
        LoadedWhenFull();
      case AnyAlg =>
        frame :| frame < memsize;
    }

    lemma LoadedWhenFull()
      requires Full()
      ensures Loaded(Abs().owner) == FramePages()
    {
      var o := Owners();
      assert forall f | 0 <= f < memsize :: o[f].Some?;
    }

    // ------------------------------------------------------------------ swap

    /** swap_pageout: writes a frame to its page's slot, or to the lowest free one; -1 if there is none. */
    method SwapPageout(frame: nat, offset: int) returns (r: int)
      requires Shape() && frame < memsize && (offset == INVALID_SWAP || offset >= 0)
      modifies this`swapfile, swapmap.v
      ensures Shape() && forall p :: HasTable(p) == old(HasTable(p))
      ensures var s := old(Abs());
        match if offset != INVALID_SWAP then Some(SlotAt(offset) as nat) else FirstFree(s.taken, 0, s.swapSize)
        case None => r == INVALID_SWAP
        case Some(k) =>
          && r != INVALID_SWAP
          && r == (if offset != INVALID_SWAP then offset else k * SIMPAGESIZE)
          && Abs() == s.(swap := s.swap[k := s.mem[frame]],
                         taken := s.taken + (if offset != INVALID_SWAP then {} else {k}))
    {
      hide FirstFree;
      var swapOffset := offset;
      if swapOffset == INVALID_SWAP {
        var idx := swapmap.Alloc();
        if idx.None? {
          return INVALID_SWAP;
        }
        swapOffset := idx.value * SIMPAGESIZE;
        assert SlotAt(swapOffset) == idx.value;
      }
      swapfile := swapfile[swapOffset / SIMPAGESIZE := physmem[frame]];
      r := swapOffset;
      assert Table() == old(Table()) && Owners() == old(Owners());
    }

    /** `evict_dirty_count ++`. */
    method CountDirtyEviction()
      requires Shape()
      modifies this`evictDirtyCount
      ensures Shape() && Abs() == old(Abs()).(count := old(Abs()).count.(dirty := old(Abs()).count.dirty + 1))
    {
      evictDirtyCount := evictDirtyCount + 1;
    }

    /** `evict_clean_count ++`. */
    method CountCleanEviction()
      requires Shape()
      modifies this`evictCleanCount
      ensures Shape() && Abs() == old(Abs()).(count := old(Abs()).count.(clean := old(Abs()).count.clean + 1))
    {
      evictCleanCount := evictCleanCount + 1;
    }

    /** swap_pagein: reads a slot into a frame. */
    method SwapPagein(frame: nat, offset: int)
      requires Shape() && frame < memsize && offset >= 0 && SlotAt(offset) in Abs().swap
      modifies physmem
      ensures Shape() && Abs() == old(Abs()).(mem := old(Abs()).mem[frame := old(Abs()).swap[SlotAt(offset)]])
    {
      SetContent(frame, swapfile[offset / SIMPAGESIZE]);
    }

    /** init_frame: zero-fills a frame and stores the address. */
    method InitFrame(frame: nat, vaddr: nat)
      requires Shape() && frame < memsize
      modifies physmem
      ensures Shape() && Abs() == old(Abs()).(mem := old(Abs()).mem[frame := Content(0, vaddr)])
    {
      SetContent(frame, Content(0, vaddr));
    }

    /** Overwriting a frame of physical memory. */
    method SetContent(frame: nat, c: Content)
      requires Shape() && frame < memsize
      modifies physmem
      ensures Shape() && Abs() == old(Abs()).(mem := old(Abs()).mem[frame := c])
    {
      physmem[frame] := c;
      assert Table() == old(Table()) && Owners() == old(Owners());
    }

    // ---------------------------------------------------------------- paging

    /** The dirty branch of the eviction: page the frame out and record where it went. */
    method WriteVictim(frame: nat, victim: nat) returns (ok: bool)
      requires Shape() && frame < memsize && HasTable(victim)
      requires HasSlot(Abs().table[victim]) ==> Abs().table[victim].swapOff >= 0
      modifies pgdir, this`swapfile, swapmap.v, this`evictDirtyCount
      ensures Shape() && forall d | 0 <= d < pgdir.Length :: pgdir[d].Some? == old(pgdir[d].Some?)
      ensures var s, e := old(Abs()), old(Abs()).table[victim];
        match SlotFor(s, e)
        case None => !ok
        case Some(k) =>
          var off := if HasSlot(e) then e.swapOff else k * SIMPAGESIZE;
          && ok
          && Abs() == s.(
               table := s.table[victim := e.(swapOff := off, dirty := false, onSwap := true)],
               swap := s.swap[k := s.mem[frame]],
               taken := s.taken + (if HasSlot(e) then {} else {k}),
               count := s.count.(dirty := s.count.dirty + 1))
    {
      hide FirstFree, Shape, HasTable, Abs;
      var offset := GetSwapOff(victim);
      var swapOffset := SwapPageout(frame, offset);
      if swapOffset == INVALID_SWAP {
        return false;
      }
      SetSwapOff(victim, swapOffset);
      LowerFlag(victim, PG_DIRTY);
      CountDirtyEviction();
      RaiseFlag(victim, PG_ONSWAP);
      ok := true;
    }

    /** The eviction in allocate_frame, up to the point where the frame is reused. */
    method EvictFrame(frame: nat) returns (ok: bool)
      requires Full() && frame < memsize
      modifies pgdir, this`swapfile, swapmap.v, this`evictCleanCount, this`evictDirtyCount
      ensures ok <==> Evict(old(Abs()), frame).Some?
      ensures Shape() && forall d | 0 <= d < pgdir.Length :: pgdir[d].Some? == old(pgdir[d].Some?)
      ensures ok ==> Abs() == Evict(old(Abs()), frame).value.(owner := old(Abs()).owner)
    {
      hide Inv, Evict, Abs, FirstFree, Shape, HasTable;
      OwnedHasTable(frame);
      EvictForm(Abs(), frame);
      var victim := coremap[frame].pte;
      LowerFlag(victim, PG_VALID);
      var onSwap := TestFlag(victim, PG_ONSWAP);
      if !onSwap {
        var dirty := TestFlag(victim, PG_DIRTY);
        if dirty {
          ok := WriteVictim(frame, victim);
        } else {
          CountCleanEviction();
          ok := true;
        }
      } else {
        ok := true;
      }
    }

    /** `coremap[frame].in_use = 1; coremap[frame].pte = p`. */
    method Assign(frame: nat, p: nat)
      requires Shape() && frame < memsize
      modifies coremap
      ensures Shape() && Abs() == old(Abs()).(owner := old(Abs()).owner[frame := Some(p)])
    {
      coremap[frame] := Frame(true, p);
      assert Table() == old(Table());
      assert Owners() == old(Owners())[frame := Some(p)];
    }

    /** The lowest frame not in use; memsize if there is none. */
    method FindFree() returns (i: nat)
      requires Shape()
      ensures i <= memsize
      ensures i < memsize ==> FreeFrame(Abs().owner, 0) == Some(i)
      ensures i == memsize ==>
        FreeFrame(Abs().owner, 0).None? && forall f | 0 <= f < memsize :: coremap[f].inUse
    {
      i := 0;
      while i < memsize
        invariant i <= memsize
        invariant forall j | 0 <= j < i :: coremap[j].inUse && Abs().owner[j].Some?
      {
        if !coremap[i].inUse {
          assert Abs().owner[i].None?;
          FreeFrameIs(Abs().owner, i);
          return;
        }
        i := i + 1;
      }
    }

    static lemma OwnedFrame(s: State, f: nat)
      requires f < |s.owner| && FreeFrame(s.owner, 0).None?
      ensures s.owner[f].Some?
    {
    }

    static lemma SweepOwners(s: State, pages: set<nat>)
      requires Inv(s)
      ensures Paging.Sweep(s, pages).owner == s.owner
    {
    }

    /** allocate_frame: a free frame, or one taken from a victim; not ok if swap is full. */
    method AllocateFrame(p: nat) returns (ok: bool, frame: nat, ghost d: Decision)
      requires Valid() && GlobalsOk(alg, memsize, Gs())
      requires Ends(alg, Abs())
      modifies this`ind, this`clock, this`swapfile, this`evictCleanCount, this`evictDirtyCount
      modifies pgdir, coremap, swapmap.v
      ensures Shape() && d.victim < memsize && frame < memsize
      ensures forall q | 0 <= q < pgdir.Length :: pgdir[q].Some? == old(pgdir[q].Some?)
      ensures ok <==> Vacate(old(Abs()), d).Some?
      ensures ok ==> var (v, f) := Vacate(old(Abs()), d).value;
        frame == f && Abs() == v.(owner := v.owner[frame := Some(p)])
      ensures if FreeFrame(old(Abs()).owner, 0).Some? then Gs() == old(Gs())
              else Chosen(alg, stamp, old(Abs()), d, old(Gs()), Gs())
    {
      hide Inv, Evict, Abs, Chosen, Shape, Paging.Sweep;
      d := Decision(0, {});
      frame := FindFree();
      ok := true;
      if frame == memsize {
        ghost var cleared;
        frame, cleared := EvictFcn();
        assert FreeFrame(Abs().owner, 0).None? by { SweepOwners(old(Abs()), cleared); }
        d := Decision(frame, cleared);
        ghost var swept := Abs();
        ok := EvictFrame(frame);
        if !ok {
          return;
        }
        OwnedFrame(swept, frame);
        EvictOwners(swept, frame);
        assert swept.owner[frame := None][frame := Some(p)] == swept.owner[frame := Some(p)];
      }
      Assign(frame, p);
    }

    /** `ref_count ++; hit_count ++`. */
    method CountHit()
      requires Shape()
      modifies this`hitCount, this`refCount
      ensures Shape() && var c := old(Abs()).count; Abs() == Recount(old(Abs()), c.hits + 1, c.misses, c.refs + 1)
    {
      refCount := refCount + 1;
      hitCount := hitCount + 1;
    }

    /** `ref_count ++; miss_count ++`. */
    method CountMiss()
      requires Shape()
      modifies this`missCount, this`refCount
      ensures Shape() && var c := old(Abs()).count; Abs() == Recount(old(Abs()), c.hits, c.misses + 1, c.refs + 1)
    {
      refCount := refCount + 1;
      missCount := missCount + 1;
    }

    static lemma SwappedIsReadable(v: State, p: nat)
      requires Inv(v) && p < PAGES
      ensures v.table[p].onSwap ==> v.table[p].swapOff >= 0 && SlotAt(v.table[p].swapOff) in v.swap
    {
    }

    /** The miss branch of find_physpage: get a frame and fill it from swap or with zeros. */
    method LoadPage(p: nat, vaddr: nat) returns (ok: bool, ghost d: Decision)
      requires Valid() && GlobalsOk(alg, memsize, Gs()) && vaddr < ADDRESS_LIMIT && p == PageOf(vaddr)
      requires HasTable(p) && !Abs().table[p].valid
      requires Ends(alg, Abs())
      modifies this`ind, this`clock, this`swapfile, this`evictCleanCount, this`evictDirtyCount
      modifies pgdir, coremap, physmem, swapmap.v
      ensures Shape() && d.victim < memsize && HasTable(p)
      ensures (if ok then Some(Abs()) else None) == Missed(old(Abs()), d, p, vaddr)
      ensures if FreeFrame(old(Abs()).owner, 0).Some? then Gs() == old(Gs())
              else Chosen(alg, stamp, old(Abs()), d, old(Gs()), Gs())
    {
      hide Inv, Abs, Chosen, Shape, Vacate;
      var frame;
      ok, frame, d := AllocateFrame(p);
      if !ok {
        return;
      }
      SwappedIsReadable(Vacate(old(Abs()), d).value.0, p);
      var onSwap := TestFlag(p, PG_ONSWAP);
      if onSwap {
        var offset := GetSwapOff(p);
        SwapPagein(frame, offset);
      } else {
        InitFrame(frame, vaddr);
      }
      SetFrame(p, frame);
    }

    static lemma LastUpdateWins(t: seq<Entry>, p: nat, a: Entry, b: Entry)
      requires p < |t|
      ensures t[p := a][p := b] == t[p := b]
    {
    }

    /** The flag updates at the end of find_physpage. */
    method MarkEntry(p: nat, kind: char)
      requires Shape() && HasTable(p)
      modifies pgdir
      ensures Shape() && HasTable(p) && Abs() == Referenced(Validated(old(Abs()), p), p, kind)
    {
      hide Abs, Shape;
      ghost var t := Abs().table;
      RaiseFlag(p, PG_VALID);
      RaiseFlag(p, PG_REF);
      if kind == 'M' || kind == 'S' {
        RaiseFlag(p, PG_DIRTY);
      }
      LastUpdateWins(t, p, t[p].(valid := true), Abs().table[p]);
    }

    /** Calling `ref_fcn`: clock sets the reference bit once more, opt drops the head of its list. */
    method RefFcn(p: nat)
      requires Shape() && HasTable(p) && Abs().table[p].ref
      modifies this`head, pgdir
      ensures Shape() && HasTable(p) && Abs() == old(Abs())
      ensures Gs() == if alg.OptAlg? then old(Gs()).(head := Tail(old(head))) else old(Gs())
    {
      match alg
      case ClockAlg =>
        RaiseFlag(p, PG_REF);
        assert old(Abs()).table[p := old(Abs()).table[p]] == old(Abs()).table;
      case OptAlg =>
        if head != [] {
          head := head[1..];
        }
      case FifoAlg =>
      case AnyAlg =>
    }

    /** A reference to a page that is not resident. */
    method Miss(vaddr: nat, p: nat) returns (ok: bool, ghost d: Decision)
      requires Valid() && GlobalsOk(alg, memsize, Gs()) && vaddr < ADDRESS_LIMIT
      requires p == PageOf(vaddr) && HasTable(p) && !Abs().table[p].valid
      requires Ends(alg, Abs())
      modifies this, pgdir, coremap, physmem, swapmap.v
      ensures d.victim < memsize
      ensures ok <==> Fetch(old(Abs()), vaddr, d).Some?
      ensures ok ==> Shape() && HasTable(p)
      ensures ok ==> Validated(Abs(), p) == Fetch(old(Abs()), vaddr, d).value
      ensures if FreeFrame(old(Abs()).owner, 0).Some? then Gs() == old(Gs())
              else Chosen(alg, stamp, old(Abs()), d, old(Gs()), Gs())
    {
      hide Inv, Abs, Chosen, Missed, GlobalsOk, Fetch, Shape, HasTable, Validated, PageOf, FreeFrame, Vacate, Evict,
        Gs, Decode;
      ghost var s, g := Abs(), Gs();
      RecountKeepsInv(s, s.count.hits, s.count.misses + 1, s.count.refs + 1);
      CountMiss();
      ok, d := LoadPage(p, vaddr);
      CountedMiss(s, vaddr, d);
      if FreeFrame(s.owner, 0).None? {
        RecountChosen(alg, stamp, s, d, g, Gs(), s.count.hits, s.count.misses + 1, s.count.refs + 1);
      }
    }

    /** The first part of find_physpage: count the reference and make the page resident. */
    method MakeResident(vaddr: nat, p: nat) returns (ok: bool, ghost d: Decision)
      requires Valid() && GlobalsOk(alg, memsize, Gs()) && vaddr < ADDRESS_LIMIT
      requires p == PageOf(vaddr) && HasTable(p)
      requires Evicts(Abs(), Ref('L', vaddr)) ==> Ends(alg, Abs())
      modifies this, pgdir, coremap, physmem, swapmap.v
      ensures d.victim < memsize
      ensures ok <==> Fetch(old(Abs()), vaddr, d).Some?
      ensures ok ==> Shape() && HasTable(p)
      ensures ok ==> Validated(Abs(), p) == Fetch(old(Abs()), vaddr, d).value
      ensures if Evicts(old(Abs()), Ref('L', vaddr)) then Chosen(alg, stamp, old(Abs()), d, old(Gs()), Gs())
              else Gs() == old(Gs())
    {
      hide Inv, Abs, Chosen, GlobalsOk, Fetch, Validated, Recount, PageOf;
      var valid := TestFlag(p, PG_VALID);
      if valid {
        d := Decision(0, {});
        HitInParts(Abs(), vaddr, d);
        CountHit();
        ok := true;
      } else {
        ok, d := Miss(vaddr, p);
      }
    }

    /** find_physpage: the frame that holds the page, its entry flagged; not ok if swap is full. */
    method FindPhyspage(vaddr: nat, kind: char) returns (ok: bool, frame: nat, ghost d: Decision)
      requires Valid() && GlobalsOk(alg, memsize, Gs()) && vaddr < ADDRESS_LIMIT
      requires Evicts(Abs(), Ref(kind, vaddr)) ==> Ends(alg, Abs())
      modifies this, pgdir, coremap, physmem, swapmap.v
      ensures d.victim < memsize
      ensures ok <==> Fetch(old(Abs()), vaddr, d).Some?
      ensures ok ==> GlobalsOk(alg, memsize, Gs())
      ensures ok ==> Answers(alg, stamp, old(Abs()), Ref(kind, vaddr), d, old(Gs()), Gs())
      ensures !ok && Evicts(old(Abs()), Ref(kind, vaddr)) ==> Chosen(alg, stamp, old(Abs()), d, old(Gs()), Gs())
      ensures ok ==> Shape()
      ensures ok ==> var s1 := Fetch(old(Abs()), vaddr, d).value;
        frame == s1.table[PageOf(vaddr)].frame && Abs() == Referenced(s1, PageOf(vaddr), kind)
    {
      hide Inv, Abs, Chosen, Answers, GlobalsOk, Fetch;
      ghost var s, g := Abs(), Gs();
      frame := 0;
      var idx := DirIndex(vaddr);
      IndicesNameThePage(vaddr, vaddr);
      if pgdir[idx].None? {
        InitSecondLevel(idx);
      }
      var p := idx * PTRS_PER_PGTBL + TblIndex(vaddr);
      ok, d := MakeResident(vaddr, p);
      if ok {
        ChosenIsAnswer(alg, stamp, s, Ref(kind, vaddr), d, g, Gs());
        MarkEntry(p, kind);
        RefFcn(p);
        frame := GetFrame(p);
      }
    }

    /** access_mem: fetch the page, compare the stored address, and bump the version on a write. */
    method AccessMem(kind: char, vaddr: nat) returns (ok: bool, version: int, tagOk: bool, ghost d: Decision)
      requires Valid() && GlobalsOk(alg, memsize, Gs()) && vaddr < ADDRESS_LIMIT
      requires Evicts(Abs(), Ref(kind, vaddr)) ==> Ends(alg, Abs())
      modifies this, pgdir, coremap, physmem, swapmap.v
      ensures d.victim < memsize
      ensures ok <==> Step(old(Abs()), kind, vaddr, d).Some?
      ensures ok ==> Valid() && Step(old(Abs()), kind, vaddr, d) == Some(Access(Abs(), version, tagOk))
      ensures ok ==> GlobalsOk(alg, memsize, Gs())
      ensures ok ==> Answers(alg, stamp, old(Abs()), Ref(kind, vaddr), d, old(Gs()), Gs())
      ensures !ok ==> GivesUp(alg, stamp, old(Abs()), Ref(kind, vaddr), old(Gs()))
    {
      hide Inv, Abs, Answers, GlobalsOk, Fetch, Touch, Chosen, GivesUp;
      var frame;
      version, tagOk := 0, false;
      ok, frame, d := FindPhyspage(vaddr, kind);
      if ok {
        TouchInParts(Fetch(old(Abs()), vaddr, d).value, vaddr, kind);
        var c := GetContent(frame);
        version, tagOk := c.version, c.tag == vaddr;
        if kind == 'S' || kind == 'M' {
          SetContent(frame, c.(version := c.version + 1));
        } else {
          assert Abs().mem[frame := c] == Abs().mem;
        }
      } else {
        GivesUpAt(alg, stamp, old(Abs()), Ref(kind, vaddr), d, old(Gs()), Gs());
      }
    }

    /** Reading a frame of physical memory. */
    method GetContent(frame: nat) returns (c: Content)
      requires Shape() && frame < memsize
      ensures c == Abs().mem[frame]
    {
      c := physmem[frame];
    }

    /** opt_init: reads the trace file and links the first node only. It fills in the later nodes too, but
        nothing points at them. */
    method OptInit(lines: seq<TraceLine>, ghost trace: seq<Ref>)
      requires Shape() && Replays(trace, lines, 0)
      modifies this`head
      ensures Shape() && Abs() == old(Abs())
      ensures head == if trace == [] then [] else [trace[0].vaddr]
    {
      hide Abs, Replays;
      ReplaysIff(trace, lines, 0);
      var i, vaddr: nat := 0, 0;
      head := [];
      while i < |lines|
        invariant i <= |lines| && Shape() && Abs() == old(Abs())
        invariant if head == [] then trace == RefsFrom(lines[i..], vaddr)
                  else trace != [] && head == [trace[0].vaddr]
      {
        assert lines[i..][1..] == lines[i + 1..];
        match lines[i] {
          case Comment =>
          case Record(_, a) =>
            vaddr := if a.Some? then a.value else vaddr;
            if head == [] {
              head := [vaddr];
            }
        }
        i := i + 1;
      }
    }

    /** The init function of the algorithm in use. */
    method InitFcn(lines: seq<TraceLine>, ghost trace: seq<Ref>)
      requires Shape() && Replays(trace, lines, 0)
      modifies this`ind, this`clock, this`head
      ensures Shape() && Abs() == old(Abs())
      ensures Gs() == match alg
        case FifoAlg => old(Gs()).(ind := 0)
        case ClockAlg => old(Gs()).(hand := 0)
        case OptAlg => old(Gs()).(head := if trace == [] then [] else [trace[0].vaddr])
        case AnyAlg => old(Gs())
    {
      match alg
      case FifoAlg => ind := 0;
      case ClockAlg => clock := 0;
      case OptAlg => OptInit(lines, trace);
      case AnyAlg =>
    }

    /** replay_trace: one access per line that is no comment, up to the end or to the access that finds swap
        full. The states, answers and globals passed through are a run of the algorithm in use. */
    method ReplayTrace(lines: seq<TraceLine>, ghost trace: seq<Ref>)
      returns (done: nat, errors: nat, ghost ss: seq<State>, ghost ds: seq<Decision>, ghost gs: seq<Globals>)
      requires Valid() && GlobalsOk(alg, memsize, Gs())
      requires Replays(trace, lines, 0) && EndsOn(alg, Abs(), trace)
      requires forall i | 0 <= i < |trace| :: trace[i].vaddr < ADDRESS_LIMIT
      modifies this, pgdir, coremap, physmem, swapmap.v
      ensures done <= |trace| && IsRunOf(alg, stamp, ss, trace[..done], ds, gs)
      ensures ss[0] == old(Abs()) && gs[0] == old(Gs())
      ensures errors == |Failing(ss, trace[..done], ds)|
      ensures done == |trace| ==> Valid() && Abs() == ss[done] && Gs() == gs[done]
      ensures done < |trace| ==> GivesUp(alg, stamp, ss[done], trace[done], gs[done])
    {
      hide Inv, Abs, Answers, GlobalsOk, Step, Failing, GivesUp, EndsOn, Ends, Evicts, IsRunOf, Gs, Replays,
        RefsFrom;
      RunOfNothing(alg, stamp, Abs(), Gs());
      NothingFailing(Abs());
      ReplaysIff(trace, lines, 0);
      var i, vaddr: nat := 0, 0;
      done, errors, ss, ds, gs := 0, 0, [Abs()], [], [Gs()];
      while i < |lines|
        invariant i <= |lines| && done <= |trace| && trace[done..] == RefsFrom(lines[i..], vaddr)
        invariant Valid() && GlobalsOk(alg, memsize, Gs()) && EndsOn(alg, Abs(), trace[done..])
        invariant IsRunOf(alg, stamp, ss, trace[..done], ds, gs) && |ss| == |gs| == done + 1 == |ds| + 1
        invariant errors == |Failing(ss, trace[..done], ds)|
        invariant ss[0] == old(Abs()) && gs[0] == old(Gs()) && ss[done] == Abs() && gs[done] == Gs()
      {
        RefsFromLine(lines, i, vaddr);
        match lines[i] {
          case Comment =>
          case Record(kind, a) =>
            vaddr := if a.Some? then a.value else vaddr;
            ghost var d;
            var ok, version, tagOk;
            ghost var r := Ref(kind, vaddr);
            NextRef(trace, done, r, RefsFrom(lines[i + 1..], vaddr));
            EndsOnNow(alg, Abs(), trace[done..]);
            ok, version, tagOk, d := AccessMem(kind, vaddr);
            if !ok {
              return;
            }
            EndsOnLater(alg, ss[done], trace[done..], d, Abs());
            assert trace[done..][1..] == trace[done + 1..];
            ExtendRun(alg, stamp, ss, trace[..done], ds, gs, r, d, Abs(), Gs());
            OneMoreTag(ss, trace[..done], ds, Abs(), r, d);
            if !tagOk {
              errors := errors + 1;
            }
            ss, ds, gs := ss + [Abs()], ds + [d], gs + [Gs()];
            done := done + 1;
        }
        i := i + 1;
      }
      RefsFromEnd(lines, vaddr);
    }
  }

  lemma RefsFromLine(lines: seq<TraceLine>, i: nat, last: nat)
    requires i < |lines|
    ensures RefsFrom(lines[i..], last) ==
      match lines[i]
      case Comment => RefsFrom(lines[i + 1..], last)
      case Record(kind, a) =>
        var vaddr := if a.Some? then a.value else last;
        [Ref(kind, vaddr)] + RefsFrom(lines[i + 1..], vaddr)
  {
    assert lines[i..][1..] == lines[i + 1..];
  }

  lemma RefsFromEnd(lines: seq<TraceLine>, last: nat)
    ensures RefsFrom(lines[|lines|..], last) == []
  {
  }

  lemma NextRef(trace: seq<Ref>, done: nat, r: Ref, rest: seq<Ref>)
    requires done <= |trace| && trace[done..] == [r] + rest
    ensures done < |trace| && trace[done] == r
    ensures trace[done + 1..] == rest && trace[..done + 1] == trace[..done] + [r]
  {
    assert trace[done..][0] == r && trace[done..][1..] == rest;
  }

  lemma EndsFromStart(alg: Algorithm, swapSize: nat, junk: seq<Content>, trace: seq<Ref>)
    requires alg.ClockAlg? && |junk| == 1 ==>
      forall i | 0 <= i < |trace| :: PageOf(trace[i].vaddr) == PageOf(trace[0].vaddr)
    ensures EndsOn(alg, Initial(swapSize, junk), trace)
  {
  }

  /** main: set everything up, replay the trace, report the counters. `done` is short of the whole trace
      only if the program gave up for want of swap. */
  method Simulate(
      alg: Algorithm, stamp: nat -> nat, memsize: nat, swapSize: nat, junk: seq<Content>,
      lines: seq<TraceLine>, ghost trace: seq<Ref>)
    returns (
      done: nat, count: Counters, errors: nat, ghost ss: seq<State>, ghost ds: seq<Decision>, ghost gs: seq<Globals>)
    requires 0 < memsize <= 0x10_0000 && |junk| == memsize
    requires Replays(trace, lines, 0) && forall i | 0 <= i < |trace| :: trace[i].vaddr < 0x10_0000_0000
    requires alg.ClockAlg? && memsize == 1 ==>
      forall i | 0 <= i < |trace| :: PageOf(trace[i].vaddr) == PageOf(trace[0].vaddr)
    ensures done <= |trace| && IsRunOf(alg, stamp, ss, trace[..done], ds, gs)
    ensures ss[0] == Initial(swapSize, junk)
    ensures gs[0] == Globals(0, 0, if alg.OptAlg? && trace != [] then [trace[0].vaddr] else [])
    ensures alg.OptAlg? && done == |trace| ==> IsBuiltRun(stamp, ss, trace, ds, gs, swapSize, junk)
    ensures done == |trace| ==>
      && count == ss[done].count && count.refs == |trace| == count.hits + count.misses
      && count.clean + count.dirty == if count.misses < memsize then 0 else count.misses - memsize
    ensures done < |trace| ==> GivesUp(alg, stamp, ss[done], trace[done], gs[done])
    ensures |WrittenPages(trace, |trace|)| <= swapSize ==> done == |trace|
    ensures errors == |Failing(ss, trace[..done], ds)|
    ensures (forall i | 0 <= i < |trace| :: trace[i].vaddr % PAGE_SIZE == 0) ==> errors == 0
  {
    hide Inv, Initial, Next, Answers, Failing, GivesUp, EndsOn, WrittenPages, Replays, RefsFrom, IsRunOf;
    EndsFromStart(alg, swapSize, junk, trace);
    var m := new Machine(alg, stamp, memsize, swapSize, junk, []);
    m.InitFcn(lines, trace);
    done, errors, ss, ds, gs := m.ReplayTrace(lines, trace);
    assert done == |trace| ==> trace[..done] == trace;
    RunOfIsRun(alg, stamp, ss, trace[..done], ds, gs);
    if forall i | 0 <= i < |trace| :: trace[i].vaddr % PAGE_SIZE == 0 {
      NoTagFails(ss, trace[..done], ds, swapSize, junk);
    }
    if done < |trace| && |WrittenPages(trace, |trace|)| <= swapSize {
      NeverGivesUp(alg, stamp, ss, trace, ds, swapSize, junk, done, gs[done]);
    }
    CountersOverRun(ss, trace[..done], ds, swapSize, junk, done);
    RunKeepsInv(ss, trace[..done], ds, done);
    count := Counters(m.hitCount, m.missCount, m.refCount, m.evictCleanCount, m.evictDirtyCount);
  }
}
