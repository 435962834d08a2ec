/** What one access does, and what two accesses in a row show, in the numbers and letters of the trace file. */
module Accesses {
  import opened Options
  import opened Addresses
  import opened Paging
  import opened Runs
  import opened Bookkeeping

  /** A store or a modify adds one to the version word it finds and makes the page dirty, and no other type does.
      The stored address is the one the tag test looks at. */
  lemma StoresAndModifiesWrite(s: State, kind: char, vaddr: nat, d: Decision)
    requires Inv(s) && vaddr < 0x10_0000_0000 && d.victim < |s.owner| && Step(s, kind, vaddr, d).Some?
    ensures |s.table| == 0x100_0000 && vaddr / 4096 < 0x100_0000
    ensures var Access(t, version, tagOk) := Step(s, kind, vaddr, d).value;
      && |t.table| == |s.table|
      && var p := vaddr / 4096;
         var e := t.table[p];
         var writes := kind == 'S' || kind == 'M';
         && e.valid && e.frame < |t.mem|
         && t.mem[e.frame].version == (if writes then version + 1 else version)
         && (tagOk <==> t.mem[e.frame].tag == vaddr)
         && (e.dirty <==> writes || (s.table[p].valid && s.table[p].dirty))
  {
    hide Fetch, Flagged, Slotted;
    var t := Step(s, kind, vaddr, d).value.state;
    StepEntries(s, Ref(kind, vaddr), d, t, vaddr / 4096);
  }

  /** Counting one reference: a hit if its page is resident, else a miss. */
  lemma HitOrMiss(s: State, r: Ref, d: Decision, t: State)
    requires Next(s, r, d, t)
    ensures Sized(s) && PageOf(r.vaddr) < PAGES && t.count.refs == s.count.refs + 1
    ensures if s.table[PageOf(r.vaddr)].valid
      then t.count.hits == s.count.hits + 1 && t.count.misses == s.count.misses
      else t.count.hits == s.count.hits && t.count.misses == s.count.misses + 1
  {
    hide Step, Vacate, Flagged, Slotted, PageOf;
    StepOwners(s, r, d, t);
    if s.table[PageOf(r.vaddr)].valid {
      AfterHit(s, r, d, t);
    } else {
      AfterMiss(s, r, d, t);
      VacateCounts(s, d);
    }
  }

  /** Pages are blocks of 4096 bytes: after a reference, another one to the same block is a hit, under any policy;
      with one frame no other reference is. */
  lemma SameBlockHits(s: State, x: Ref, d: Decision, t: State, y: Ref, d': Decision, u: State)
    requires Next(s, x, d, t) && Next(t, y, d', u)
    ensures x.vaddr / 4096 == y.vaddr / 4096 ==> u.count.hits == t.count.hits + 1 && u.count.misses == t.count.misses
    ensures |s.owner| == 1 ==> (u.count.hits == t.count.hits + 1 <==> x.vaddr / 4096 == y.vaddr / 4096)
    ensures |s.owner| == 1 ==> (u.count.misses == t.count.misses + 1 <==> x.vaddr / 4096 != y.vaddr / 4096)
  {
    hide Step, Flagged, Slotted, PageOf, FreeFrame;
    IndicesNameThePage(x.vaddr, y.vaddr);
    StepKeepsInv(s, x, d, t);
    StepEntries(s, x, d, t, PageOf(x.vaddr));
    HitOrMiss(t, y, d', u);
    if |s.owner| == 1 && t.table[PageOf(y.vaddr)].valid {
      assert t.owner[0] == Some(PageOf(x.vaddr)) && t.owner[0] == Some(PageOf(y.vaddr));
    }
  }
}
