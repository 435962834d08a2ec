/** The trace reducer fastslim.py: what it prints, what it drops, and what its flushes prove
    about the misses of any paging policy. */
module Fastslim {
  import opened Options
  import opened Residency
  import opened Optimal
  import opened Phases

  datatype TraceItem = TraceItem(reftype: string, pg: nat, tstamp: nat, marked: bool)

  /** An input line: whether it starts with '=', its reference type, and its address if it has one. */
  datatype RawLine = RawLine(comment: bool, reftype: string, addr: Option<nat>)

  /** A line that got past the filters: a reference type and a page. */
  datatype Line = Line(reftype: string, pg: nat)

  /** The reference a line counts for: none for a comment, for a code page unless code is kept, and for
      a line without an address. */
  function Filter(raw: RawLine, keepcode: bool): seq<Line> {
    if raw.comment || (raw.reftype == "I" && !keepcode) || raw.addr.None? then []
    else [Line(raw.reftype, raw.addr.value / 4096)]
  }

  function Filtered(raws: seq<RawLine>, keepcode: bool): seq<Line> {
    if raws == [] then [] else Filtered(raws[..|raws| - 1], keepcode) + Filter(raws[|raws| - 1], keepcode)
  }

  /** The line counts: it is no comment, has an address, and is no code unless code is kept. */
  predicate Counts(raw: RawLine, keepcode: bool) {
    !raw.comment && raw.addr.Some? && (keepcode || raw.reftype != "I")
  }

  function CountedBefore(raws: seq<RawLine>, keepcode: bool, n: nat): nat
    requires n <= |raws|
  {
    if n == 0 then 0 else CountedBefore(raws, keepcode, n - 1) + (if Counts(raws[n - 1], keepcode) then 1 else 0)
  }

  /** The input lines are the counting ones, in order, each with its type and with the page of 4096 bytes that
      its address lies in. */
  ghost predicate AreCounted(lines: seq<Line>, raws: seq<RawLine>, keepcode: bool) {
    && |lines| == CountedBefore(raws, keepcode, |raws|)
    && forall i: nat | i < |raws| && Counts(raws[i], keepcode) ::
         IsLineOf(lines, raws[i], CountedBefore(raws, keepcode, i))
  }

  predicate IsLineOf(lines: seq<Line>, raw: RawLine, k: nat)
    requires raw.addr.Some?
  {
    k < |lines| && lines[k].reftype == raw.reftype &&
    lines[k].pg * 4096 <= raw.addr.value < (lines[k].pg + 1) * 4096
  }

  lemma {:induction false} CountedBeforePrefix(raws: seq<RawLine>, keepcode: bool, m: nat, n: nat)
    requires n <= m <= |raws|
    ensures CountedBefore(raws[..m], keepcode, n) == CountedBefore(raws, keepcode, n)
  {
    if n > 0 {
      CountedBeforePrefix(raws, keepcode, m, n - 1);
    }
  }

  lemma FilterCounts(raw: RawLine, keepcode: bool)
    ensures Counts(raw, keepcode) ==> raw.addr.Some?
    ensures Filter(raw, keepcode) == [] <==> raw.comment || raw.addr.None? || (raw.reftype == "I" && !keepcode)
    ensures Filter(raw, keepcode) == [] <==> !Counts(raw, keepcode)
    ensures Counts(raw, keepcode) ==>
      |Filter(raw, keepcode)| == 1 && IsLineOf(Filter(raw, keepcode), raw, 0)
  {
  }

  lemma {:induction false} FilteredAreCounted(raws: seq<RawLine>, keepcode: bool)
    ensures AreCounted(Filtered(raws, keepcode), raws, keepcode)
  {
    hide Filter, Counts;
    if raws != [] {
      var n := |raws| - 1;
      var first, lines := Filtered(raws[..n], keepcode), Filtered(raws, keepcode);
      FilteredAreCounted(raws[..n], keepcode);
      FilterCounts(raws[n], keepcode);
      CountedBeforePrefix(raws, keepcode, n, n);
      forall i: nat | i < |raws| && Counts(raws[i], keepcode)
        ensures raws[i].addr.Some? && IsLineOf(lines, raws[i], CountedBefore(raws, keepcode, i))
      {
        FilterCounts(raws[i], keepcode);
        CountedBeforePrefix(raws, keepcode, n, i);
        if i < n {
          assert raws[..n][i] == raws[i];
          assert IsLineOf(first, raws[i], CountedBefore(raws[..n], keepcode, i));
        } else {
          assert lines[|first|] == Filter(raws[n], keepcode)[0];
        }
      }
    }
  }

  /** Unless code is kept, no code line is among those that count. */
  lemma {:induction false} NoCodeCounts(raws: seq<RawLine>)
    ensures forall i | 0 <= i < |Filtered(raws, false)| :: Filtered(raws, false)[i].reftype != "I"
  {
    if raws != [] {
      NoCodeCounts(raws[..|raws| - 1]);
    }
  }

  function Item(lines: seq<Line>, i: nat): TraceItem
    requires i < |lines|
  {
    TraceItem(lines[i].reftype, lines[i].pg, i, false)
  }

  // ------------------------------------------------------- what it computes

  /** Buffered pages, items waiting for the next flush, items printed, and flushes so far. */
  datatype Slim = Slim(buffer: set<nat>, pending: seq<TraceItem>, out: seq<TraceItem>, flushes: nat)

  function SlimStep(s: Slim, t: TraceItem, k: nat): Slim {
    if t.pg in s.buffer then s
    else if |s.buffer| == k then Slim({t.pg}, [t], s.out + s.pending, s.flushes + 1)
    else s.(buffer := s.buffer + {t.pg}, pending := s.pending + [t])
  }

  /** The reducer after `n` lines: the first item of every page of a phase is kept, and printed
      when the next phase begins. */
  function After(lines: seq<Line>, k: nat, n: nat): Slim
    requires n <= |lines|
  {
    if n == 0 then Slim({}, [], [], 0) else SlimStep(After(lines, k, n - 1), Item(lines, n - 1), k)
  }

  predicate Ascending(s: seq<TraceItem>) {
    forall i, j | 0 <= i < j < |s| :: s[i].tstamp < s[j].tstamp
  }

  /** Every item is one of the first `n` input lines. */
  predicate FromInput(s: seq<TraceItem>, lines: seq<Line>, n: nat)
    requires n <= |lines|
  {
    forall i | 0 <= i < |s| ::
      && s[i].tstamp < n && !s[i].marked
      && s[i].reftype == lines[s[i].tstamp].reftype && s[i].pg == lines[s[i].tstamp].pg
  }

  function PagesIn(s: seq<TraceItem>): set<nat> {
    set t | t in s :: t.pg
  }

  /** Nothing is invented or reordered: every kept item is an input line, in input order, and the
      waiting items are one for each buffered page. */
  ghost predicate Kept(s: Slim, lines: seq<Line>, n: nat)
    requires n <= |lines|
  {
    && Ascending(s.out + s.pending)
    && FromInput(s.out + s.pending, lines, n)
    && |s.pending| == |s.buffer|
    && PagesIn(s.pending) == s.buffer
  }

  lemma AscendingMore(s: seq<TraceItem>, t: TraceItem)
    requires Ascending(s) && forall i | 0 <= i < |s| :: s[i].tstamp < t.tstamp
    ensures Ascending(s + [t])
  {
  }

  lemma FromInputMore(s: seq<TraceItem>, lines: seq<Line>, n: nat)
    requires n < |lines| && FromInput(s, lines, n)
    ensures FromInput(s, lines, n + 1) && FromInput(s + [Item(lines, n)], lines, n + 1)
    ensures forall i | 0 <= i < |s| :: s[i].tstamp < n
  {
  }

  lemma PagesInMore(s: seq<TraceItem>, t: TraceItem)
    ensures PagesIn([]) == {} && PagesIn(s + [t]) == PagesIn(s) + {t.pg}
  {
    assert forall x | x in s :: x in s + [t];
    assert t in s + [t];
  }

  lemma KeptStep(s: Slim, lines: seq<Line>, k: nat, n: nat)
    requires n < |lines| && Kept(s, lines, n)
    ensures Kept(SlimStep(s, Item(lines, n), k), lines, n + 1)
  {
    hide Ascending, FromInput, PagesIn;
    var t, all := Item(lines, n), s.out + s.pending;
    FromInputMore(all, lines, n);
    if t.pg !in s.buffer {
      AscendingMore(all, t);
      PagesInMore(s.pending, t);
      PagesInMore([], t);
      assert [] + [t] == [t] && s.out + (s.pending + [t]) == all + [t];
    }
  }

  lemma NothingKept(lines: seq<Line>)
    ensures Kept(Slim({}, [], [], 0), lines, 0)
  {
    assert PagesIn([]) == {};
  }

  lemma {:induction false} KeptInOrder(lines: seq<Line>, k: nat, n: nat)
    requires n <= |lines|
    ensures Kept(After(lines, k, n), lines, n)
  {
    hide Kept, SlimStep, Item;
    if n == 0 {
      NothingKept(lines);
    } else {
      KeptInOrder(lines, k, n - 1);
      KeptStep(After(lines, k, n - 1), lines, k, n - 1);
    }
  }

  lemma Stamps(lines: seq<Line>, i: nat, j: nat)
    requires i < |lines| && j < |lines|
    ensures Item(lines, i) == Item(lines, j) <==> i == j
    ensures Item(lines, j).pg == lines[j].pg
  {
  }

  lemma StampedBefore(s: seq<TraceItem>, lines: seq<Line>, n: nat)
    requires n < |lines| && FromInput(s, lines, n)
    ensures Item(lines, n) !in s
  {
  }

  /** Which lines are kept: those whose page was not in the buffer when they were read, that is, the first
      reference to each page in its phase. */
  lemma {:induction false} KeptIfNew(lines: seq<Line>, k: nat, n: nat, i: nat)
    requires i < n <= |lines|
    ensures Item(lines, i) in After(lines, k, n).out + After(lines, k, n).pending <==>
            lines[i].pg !in After(lines, k, i).buffer
  {
    hide Ascending, FromInput, PagesIn, SlimStep, Item;
    var s, t := After(lines, k, n - 1), Item(lines, n - 1);
    var all, added := s.out + s.pending, if t.pg in s.buffer then [] else [t];
    KeptInOrder(lines, k, n - 1);
    KeptItems(s, t, k);
    StampedBefore(all, lines, n - 1);
    Stamps(lines, i, n - 1);
    assert Item(lines, i) in all + added <==> Item(lines, i) in all || Item(lines, i) in added;
    if i < n - 1 {
      KeptIfNew(lines, k, n - 1, i);
    }
  }

  lemma KeptItems(s: Slim, t: TraceItem, k: nat)
    ensures var next := SlimStep(s, t, k);
      next.out + next.pending == s.out + s.pending + (if t.pg in s.buffer then [] else [t])
  {
  }

  predicate WholePhases(s: Slim, k: nat) {
    |s.buffer| <= k && |s.pending| == |s.buffer| && |s.out| == s.flushes * k
  }

  lemma OneMore(a: nat, k: nat)
    ensures (a + 1) * k == a * k + k
  {
  }

  lemma NoPhases(k: nat)
    ensures WholePhases(Slim({}, [], [], 0), k)
  {
  }

  lemma WholePhasesStep(s: Slim, t: TraceItem, k: nat)
    requires k > 0 && WholePhases(s, k)
    ensures WholePhases(SlimStep(s, t, k), k)
  {
    OneMore(s.flushes, k);
  }

  /** Each flush prints one whole phase of `k` pages. */
  lemma {:induction false} FlushesPrintPhases(lines: seq<Line>, k: nat, n: nat)
    requires n <= |lines| && k > 0
    ensures WholePhases(After(lines, k, n), k)
  {
    hide WholePhases, SlimStep;
    if n == 0 {
      NoPhases(k);
    } else {
      FlushesPrintPhases(lines, k, n - 1);
      WholePhasesStep(After(lines, k, n - 1), Item(lines, n - 1), k);
    }
  }

  lemma SomePending(s: Slim, t: TraceItem, k: nat)
    requires |s.pending| == |s.buffer|
    ensures SlimStep(s, t, k).pending != []
  {
  }

  /** The program ends without a last flush: on a nonempty trace the items of the last phase are kept but
      never printed. */
  lemma {:induction false} LastPhaseIsNotPrinted(lines: seq<Line>, k: nat, n: nat)
    requires n <= |lines|
    ensures After(lines, k, n).pending != [] <==> n > 0
  {
    hide SlimStep, Ascending, FromInput, PagesIn;
    if n > 0 {
      KeptInOrder(lines, k, n - 1);
      SomePending(After(lines, k, n - 1), Item(lines, n - 1), k);
    }
  }

  function PagesOf(lines: seq<Line>): (pages: seq<nat>)
    ensures |pages| == |lines|
  {
    seq(|lines|, i requires 0 <= i < |lines| => lines[i].pg)
  }

  lemma FlushesTail(b: set<nat>, lines: seq<Line>, k: nat, n: nat)
    requires n < |lines|
    ensures Flushes(b, PagesOf(lines)[n..], k) ==
      (if Flushed(b, lines[n].pg, k) then 1 else 0) +
      Flushes(Buffer(b, lines[n].pg, k), PagesOf(lines)[n + 1..], k)
  {
    assert PagesOf(lines)[n..] == [lines[n].pg] + PagesOf(lines)[n + 1..];
  }

  /** The reducer's flushes are the phase cuts of the page trace. */
  lemma {:induction false} FlushesArePhases(lines: seq<Line>, k: nat, n: nat)
    requires n <= |lines|
    ensures After(lines, k, |lines|).flushes ==
      After(lines, k, n).flushes + Flushes(After(lines, k, n).buffer, PagesOf(lines)[n..], k)
    decreases |lines| - n
  {
    hide SlimStep, Buffer, Flushed, PagesOf;
    if n < |lines| {
      var s, t := After(lines, k, n), Item(lines, n);
      assert After(lines, k, n + 1) == SlimStep(s, t, k);
      SlimBuffer(s, t, k);
      FlushesTail(s.buffer, lines, k, n);
      FlushesArePhases(lines, k, n + 1);
    }
  }

  /** A reduced trace of `out` items says: every policy with at most `k` frames, started empty on the
      original trace, misses at least once per flush and once more. */
  lemma EveryFlushForcesAMiss(lines: seq<Line>, vs: seq<nat>, m: nat, k: nat)
    requires 0 < m <= k && lines != [] && |vs| == |lines| && InRange(vs, m)
    ensures var s, misses := After(lines, k, |lines|), Misses([], PagesOf(lines), vs, m);
      misses >= s.flushes + 1 && |s.out| == s.flushes * k
  {
    FlushesArePhases(lines, k, 0);
    assert PagesOf(lines)[0..] == PagesOf(lines);
    FlushesPrintPhases(lines, k, |lines|);
    FlushesBoundMisses(PagesOf(lines), vs, m, k);
  }

  // ------------------------------------------------- dropped lines and LRU

  /** Where `p` is in the list. */
  function Position(l: seq<nat>, p: nat): (i: nat)
    requires p in l
    ensures i < |l| && l[i] == p
  {
    if l[0] == p then 0 else 1 + Position(l[1..], p)
  }

  /** Least recently used first; a reference moves its page to the end, a miss on full memory drops the first. */
  function LruRefer(l: seq<nat>, p: nat, m: nat): seq<nat>
    requires m > 0
  {
    if p in l then l[..Position(l, p)] + l[Position(l, p) + 1..] + [p]
    else if |l| < m then l + [p]
    else l[1..] + [p]
  }

  function LruAfter(lines: seq<Line>, m: nat, n: nat): seq<nat>
    requires n <= |lines| && m > 0
  {
    if n == 0 then [] else LruRefer(LruAfter(lines, m, n - 1), lines[n - 1].pg, m)
  }

  /** `b` is exactly the set of the most recently used pages of the list. */
  ghost predicate MostRecent(l: seq<nat>, b: set<nat>) {
    |b| <= |l| && SetOf(l[|l| - |b|..]) == b
  }

  /** Appending a page that is not among the `c` most recent extends them. */
  lemma AppendRecent(l: seq<nat>, c: nat, p: nat)
    requires c <= |l|
    ensures (l + [p])[|l| - c..] == l[|l| - c..] + [p]
    ensures SetOf(l[|l| - c..] + [p]) == SetOf(l[|l| - c..]) + {p}
  {
  }

  /** Moving item `i` to the end shifts the items after it. */
  lemma MovedAt(l: seq<nat>, i: nat, k: nat)
    requires i < |l| && k < |l|
    ensures var r := l[..i] + l[i + 1..] + [l[i]];
      |r| == |l| && r[k] == l[if k < i then k else if k < |l| - 1 then k + 1 else i]
  {
  }

  /** Moving one of the `c` most recent pages to the end keeps them the `c` most recent. */
  lemma MoveRecent(l: seq<nat>, i: nat, c: nat)
    requires |l| - c <= i < |l| && c <= |l|
    ensures var r := l[..i] + l[i + 1..] + [l[i]];
      |r| == |l| && SetOf(r[|l| - c..]) == SetOf(l[|l| - c..])
  {
    var r, d := l[..i] + l[i + 1..] + [l[i]], |l| - c;
    var was, now := l[d..], r[d..];
    forall x | x in was ensures x in now {
      var j :| 0 <= j < c && was[j] == x;
      var k := if d + j < i then d + j else if d + j > i then d + j - 1 else |l| - 1;
      MovedAt(l, i, k);
      assert now[k - d] == x;
    }
    forall x | x in now ensures x in was {
      var j :| 0 <= j < c && now[j] == x;
      var k := if d + j < i then d + j else if d + j < |l| - 1 then d + j + 1 else i;
      MovedAt(l, i, d + j);
      assert was[k - d] == x;
    }
  }

  lemma AppendMostRecent(l: seq<nat>, b: set<nat>, p: nat)
    requires MostRecent(l, b) && p !in b
    ensures MostRecent(l + [p], b + {p})
  {
    hide SetOf;
    AppendRecent(l, |b|, p);
    assert |b + {p}| == |b| + 1;
    assert (l + [p])[|l| - |b|..] == l[|l| - |b|..] + [p];
  }

  /** The list without page `p`, and without its first page if that makes room for `p`. */
  function MakeRoom(l: seq<nat>, p: nat, m: nat): seq<nat>
    requires m > 0
  {
    if p in l then l[..Position(l, p)] + l[Position(l, p) + 1..]
    else if |l| < m then l
    else l[1..]
  }

  lemma TailHas(l: seq<nat>, c: nat, i: nat)
    requires c <= |l| && i < |l|
    ensures |l| - c <= i ==> l[i] in SetOf(l[|l| - c..])
  {
    if |l| - c <= i {
      assert l[|l| - c..][i - (|l| - c)] == l[i];
    }
  }

  lemma {:induction false} PositionIsOnly(l: seq<nat>, p: nat, i: nat)
    requires Distinct(l) && i < |l| && l[i] == p
    ensures Position(l, p) == i
  {
  }

  lemma MakeRoomKeepsRecent(l: seq<nat>, b: set<nat>, p: nat, m: nat)
    requires m > 0 && |l| <= m && Distinct(l) && MostRecent(l, b) && p !in b
    requires p in l || |l| < m || |b| < m
    ensures MostRecent(MakeRoom(l, p, m), b)
  {
    var r, tail := MakeRoom(l, p, m), l[|l| - |b|..];
    if p in l {
      var i := Position(l, p);
      TailHas(l, |b|, i);
    }
    assert r[|r| - |b|..] == tail;
  }

  lemma RecentPosition(l: seq<nat>, b: set<nat>, p: nat) returns (i: nat)
    requires MostRecent(l, b) && p in b
    ensures |l| - |b| <= i < |l| && l[i] == p
  {
    var j :| 0 <= j < |b| && l[|l| - |b|..][j] == p;
    i := |l| - |b| + j;
  }

  lemma HitMostRecent(l: seq<nat>, b: set<nat>, p: nat, m: nat)
    requires m > 0 && Distinct(l) && MostRecent(l, b) && p in b
    ensures MostRecent(LruRefer(l, p, m), b)
  {
    hide Distinct, SetOf;
    var i := RecentPosition(l, b, p);
    PositionIsOnly(l, p, i);
    MoveRecent(l, i, |b|);
  }

  lemma NothingRecent(l: seq<nat>)
    ensures MostRecent(l, {})
  {
    assert l[|l|..] == [];
  }

  lemma MostRecentStep(l: seq<nat>, b: set<nat>, p: nat, m: nat, k: nat)
    requires 0 < k <= m && |l| <= m && |b| <= k && Distinct(l) && MostRecent(l, b)
    ensures MostRecent(LruRefer(l, p, m), Buffer(b, p, k))
  {
    hide MostRecent, Distinct;
    if p in b {
      HitMostRecent(l, b, p, m);
    } else {
      var b0 := if |b| == k then {} else b;
      NothingRecent(l);
      MakeRoomKeepsRecent(l, b0, p, m);
      AppendMostRecent(MakeRoom(l, p, m), b0, p);
      assert b0 + {p} == Buffer(b, p, k);
    }
  }

  lemma RemovedAt(l: seq<nat>, i: nat, k: nat)
    requires i < |l| && k < |l| - 1
    ensures var r := l[..i] + l[i + 1..];
      |r| == |l| - 1 && r[k] == l[if k < i then k else k + 1]
  {
  }

  /** Taking one page out leaves the others, each still once. */
  lemma RemovedDistinct(l: seq<nat>, i: nat)
    requires Distinct(l) && i < |l|
    ensures var r := l[..i] + l[i + 1..];
      |r| == |l| - 1 && Distinct(r) && l[i] !in r
  {
    var r := l[..i] + l[i + 1..];
    forall k | 0 <= k < |r| ensures r[k] == l[if k < i then k else k + 1] {
      RemovedAt(l, i, k);
    }
  }

  lemma LruSizes(l: seq<nat>, p: nat, m: nat)
    requires m > 0 && |l| <= m && Distinct(l)
    ensures |LruRefer(l, p, m)| <= m && Distinct(LruRefer(l, p, m))
  {
    hide Position;
    if p in l {
      RemovedDistinct(l, Position(l, p));
    }
  }

  lemma SlimBuffer(s: Slim, t: TraceItem, k: nat)
    ensures SlimStep(s, t, k).buffer == Buffer(s.buffer, t.pg, k)
    ensures SlimStep(s, t, k).flushes == s.flushes + (if Flushed(s.buffer, t.pg, k) then 1 else 0)
  {
  }

  lemma {:induction false} BufferIsMostRecent(lines: seq<Line>, m: nat, k: nat, n: nat)
    requires 0 < k <= m && n <= |lines|
    ensures var l := LruAfter(lines, m, n);
      |l| <= m && Distinct(l) && MostRecent(l, After(lines, k, n).buffer)
  {
    hide MostRecent, LruRefer, SlimStep, Buffer, SetOf;
    if n == 0 {
      NothingRecent([]);
    } else {
      var l, s, t := LruAfter(lines, m, n - 1), After(lines, k, n - 1), Item(lines, n - 1);
      BufferIsMostRecent(lines, m, k, n - 1);
      FlushesPrintPhases(lines, k, n - 1);
      SlimBuffer(s, t, k);
      LruSizes(l, t.pg, m);
      MostRecentStep(l, s.buffer, t.pg, m, k);
    }
  }

  /** Every line the reducer drops is a hit of LRU on the original trace, for every memory at least as
      large as the buffer. */
  lemma DropsAreLruHits(lines: seq<Line>, m: nat, k: nat, n: nat)
    requires 0 < k <= m && n < |lines|
    requires lines[n].pg in After(lines, k, n).buffer
    ensures lines[n].pg in LruAfter(lines, m, n)
  {
    BufferIsMostRecent(lines, m, k, n);
    var l, b := LruAfter(lines, m, n), After(lines, k, n).buffer;
    assert lines[n].pg in l[|l| - |b|..];
  }

  // ---------------------------------------------------------- the program

  /** `list.sort` by time stamp: stable, earlier stamps first. */
  function SortByTime(s: seq<TraceItem>): seq<TraceItem> {
    if s == [] then [] else Insert(SortByTime(s[..|s| - 1]), s[|s| - 1])
  }

  function Insert(s: seq<TraceItem>, t: TraceItem): seq<TraceItem> {
    if s == [] || s[|s| - 1].tstamp <= t.tstamp then s + [t]
    else Insert(s[..|s| - 1], t) + [s[|s| - 1]]
  }

  predicate Sorted(s: seq<TraceItem>) {
    forall i, j | 0 <= i < j < |s| :: s[i].tstamp <= s[j].tstamp
  }

  lemma SortedMore(s: seq<TraceItem>, last: TraceItem)
    requires Sorted(s) && forall x | x in multiset(s) :: x.tstamp <= last.tstamp
    ensures Sorted(s + [last]) && multiset(s + [last]) == multiset(s) + multiset{last}
  {
    forall i | 0 <= i < |s| ensures s[i].tstamp <= last.tstamp {
      assert s[i] in multiset(s);
    }
  }

  lemma SortedSplit(s: seq<TraceItem>)
    requires s != [] && Sorted(s)
    ensures var first, last := s[..|s| - 1], s[|s| - 1];
      && s == first + [last] && Sorted(first) && multiset(s) == multiset(first) + multiset{last}
      && forall x | x in multiset(first) :: x.tstamp <= last.tstamp
  {
    assert s == s[..|s| - 1] + [s[|s| - 1]];
  }

  lemma InsertEarlier(s: seq<TraceItem>, t: TraceItem)
    requires s != [] && s[|s| - 1].tstamp > t.tstamp
    ensures Insert(s, t) == Insert(s[..|s| - 1], t) + [s[|s| - 1]]
  {
  }

  lemma {:induction false} InsertSorts(s: seq<TraceItem>, t: TraceItem)
    requires Sorted(s)
    ensures Sorted(Insert(s, t)) && multiset(Insert(s, t)) == multiset(s) + multiset{t}
  {
    hide Sorted, Insert;
    if s == [] {
      InsertLast(s, t);
      SortedMore(s, t);
    } else {
      var first, last := s[..|s| - 1], s[|s| - 1];
      SortedSplit(s);
      if last.tstamp <= t.tstamp {
        InsertLast(s, t);
        SortedMore(s, t);
      } else {
        InsertSorts(first, t);
        InsertEarlier(s, t);
        SortedMore(Insert(first, t), last);
      }
    }
  }

  /** Whatever it is given, the sort puts the same items in the order of their time stamps. */
  lemma {:induction false} SortSorts(s: seq<TraceItem>)
    ensures Sorted(SortByTime(s)) && multiset(SortByTime(s)) == multiset(s)
  {
    hide Insert;
    if s != [] {
      var first, last := s[..|s| - 1], s[|s| - 1];
      SortSorts(first);
      InsertSorts(SortByTime(first), last);
      assert s == first + [last];
    }
  }

  lemma InsertLast(s: seq<TraceItem>, t: TraceItem)
    requires s != [] ==> s[|s| - 1].tstamp <= t.tstamp
    ensures Insert(s, t) == s + [t]
  {
  }

  lemma {:induction false} SortKeepsAscending(s: seq<TraceItem>)
    requires Ascending(s)
    ensures SortByTime(s) == s
  {
    hide Insert;
    if s != [] {
      var first, last := s[..|s| - 1], s[|s| - 1];
      SortKeepsAscending(first);
      InsertLast(first, last);
      assert first + [last] == s;
    }
  }

  lemma {:induction false} AfterPrefix(lines: seq<Line>, more: seq<Line>, k: nat, n: nat)
    requires n <= |lines|
    ensures After(lines + more, k, n) == After(lines, k, n)
  {
    hide SlimStep;
    if n > 0 {
      AfterPrefix(lines, more, k, n - 1);
    }
  }

  lemma AscendingSuffix(a: seq<TraceItem>, b: seq<TraceItem>)
    requires Ascending(a + b)
    ensures Ascending(b)
  {
    forall i, j | 0 <= i < j < |b| ensures b[i].tstamp < b[j].tstamp {
      assert (a + b)[|a| + i] == b[i] && (a + b)[|a| + j] == b[j];
    }
  }

  /** A step by the branches of the program: drop the item, or buffer it, after a flush if the buffer is full. */
  lemma SlimStepForms(s: Slim, t: TraceItem, k: nat)
    ensures t.pg in s.buffer ==> SlimStep(s, t, k) == s
    ensures t.pg !in s.buffer && |s.buffer| == k ==>
      SlimStep(s, t, k) == Slim({} + {t.pg}, [] + [t], s.out + s.pending, s.flushes + 1)
    ensures t.pg !in s.buffer && |s.buffer| != k ==>
      SlimStep(s, t, k) == Slim(s.buffer + {t.pg}, s.pending + [t], s.out, s.flushes)
  {
  }

  lemma AfterOneMore(lines: seq<Line>, line: Line, k: nat)
    ensures After(lines + [line], k, |lines| + 1) ==
      SlimStep(After(lines, k, |lines|), TraceItem(line.reftype, line.pg, |lines|, false), k)
  {
    AfterPrefix(lines, [line], k, |lines|);
  }

  /** Sorting the waiting items changes nothing. */
  lemma WaitingAreSorted(lines: seq<Line>, k: nat, n: nat)
    requires n <= |lines|
    ensures SortByTime(After(lines, k, n).pending) == After(lines, k, n).pending
  {
    var s := After(lines, k, n);
    KeptInOrder(lines, k, n);
    AscendingSuffix(s.out, s.pending);
    SortKeepsAscending(s.pending);
  }

  class Reducer {
    const buffersize: nat
    const keepcode: bool
    var ts: nat
    var tracebuffer: map<nat, TraceItem>  // a Python set whose items compare by page
    var toprint: seq<TraceItem>
    var printed: seq<TraceItem>
    ghost var input: seq<Line>

    /** The program state is the specified one. No buffered item is ever marked: the mark goes on
        the fresh item, which is then dropped. */
    ghost predicate Valid()
      reads this
    {
      && ts == |input|
      && (forall p | p in tracebuffer :: !tracebuffer[p].marked)
      && Slim(tracebuffer.Keys, toprint, printed, After(input, buffersize, ts).flushes) == After(input, buffersize, ts)
    }

    constructor (buffersize: nat, keepcode: bool)
      ensures Valid() && input == [] && this.buffersize == buffersize && this.keepcode == keepcode
    {
      this.buffersize, this.keepcode := buffersize, keepcode;
      ts, tracebuffer, toprint, printed, input := 0, map[], [], [], [];
    }

    /** The marked items of the buffer, in whatever order the set yields them. */
    static method MarkedItems(buffer: map<nat, TraceItem>) returns (r: seq<TraceItem>)
      ensures forall t :: t in r <==> t in buffer.Values && t.marked
      ensures (forall t | t in buffer.Values :: !t.marked) ==> r == []
    {
      r := [];
      var rest := buffer.Keys;
      while rest != {}
        invariant rest <= buffer.Keys
        invariant forall t :: t in r <==> t.marked && exists p :: p in buffer.Keys - rest && buffer[p] == t
        decreases |rest|
      {
        var p :| p in rest;
        if buffer[p].marked {
          r := r + [buffer[p]];
        }
        rest := rest - {p};
      }
      assert r != [] ==> r[0] in r;
    }

    /** Prints the waiting items in time order and empties the buffer. */
    method EmitMarkedInTsOrder()
      requires Valid()
      modifies this
      ensures printed == old(printed) + old(toprint) && toprint == [] && tracebuffer == map[]
      ensures ts == old(ts) && input == old(input)
    {
      hide After, SortByTime;
      var marked := MarkedItems(tracebuffer);
      toprint := toprint + marked;
      assert toprint == old(toprint);
      WaitingAreSorted(input, buffersize, ts);
      toprint := SortByTime(toprint);
      var i := 0;
      while i < |toprint|
        invariant i <= |toprint| && toprint == old(toprint) && printed == old(printed) + toprint[..i]
        invariant ts == old(ts) && input == old(input)
      {
        printed := printed + [toprint[i]];
        i := i + 1;
      }
      assert toprint[..i] == toprint;
      tracebuffer := map[];
      toprint := [];
    }

    /** The body of the input loop. */
    method Process(raw: RawLine)
      requires Valid()
      modifies this
      ensures Valid() && input == old(input) + Filter(raw, keepcode)
    {
      if raw.comment {
        return;
      }
      if raw.reftype == "I" && !keepcode {
        return;
      }
      if raw.addr.None? {
        return;
      }
      ProcessLine(Line(raw.reftype, raw.addr.value / 4096));
    }

    /** `toprint.append(ti)` and `tracebuffer.add(ti)`, for an unmarked item of a new page. */
    method Add(ti: TraceItem)
      requires !ti.marked && forall p | p in tracebuffer :: !tracebuffer[p].marked
      modifies this`toprint, this`tracebuffer
      ensures toprint == old(toprint) + [ti] && tracebuffer.Keys == old(tracebuffer.Keys) + {ti.pg}
      ensures forall p | p in tracebuffer :: !tracebuffer[p].marked
    {
      toprint := toprint + [ti];
      tracebuffer := tracebuffer[ti.pg := ti];
    }

    /** The rest of the body, for a line that got past the filters. */
    method ProcessLine(line: Line)
      requires Valid()
      modifies this
      ensures Valid() && input == old(input) + [line]
    {
      hide After, SlimStep;
      var ti := TraceItem(line.reftype, line.pg, ts, false);
      AfterOneMore(input, line, buffersize);
      SlimStepForms(After(input, buffersize, ts), ti, buffersize);
      if ti.pg in tracebuffer {
        ti := ti.(marked := true, tstamp := ts);
      } else {
        if |tracebuffer| == buffersize {
          EmitMarkedInTsOrder();
        }
        Add(ti);
      }
      ts := ts + 1;
      input := input + [line];
    }

    /** A pass over a whole trace ends in the state specified for the lines that count. */
    method Reduce(raws: seq<RawLine>)
      requires Valid() && input == []
      modifies this
      ensures Valid() && input == Filtered(raws, keepcode)
      ensures tracebuffer.Keys == After(input, buffersize, |input|).buffer
      ensures printed == After(input, buffersize, |input|).out
      ensures AreCounted(input, raws, keepcode)
      ensures !keepcode ==> forall i | 0 <= i < |printed + toprint| :: (printed + toprint)[i].reftype != "I"
    {
      hide After, Filter;
      for i := 0 to |raws|
        invariant Valid() && input == Filtered(raws[..i], keepcode)
      {
        Process(raws[i]);
        assert raws[..i + 1][..i] == raws[..i];
      }
      assert raws[..|raws|] == raws;
      FilteredAreCounted(raws, keepcode);
      NoCodeCounts(raws);
      KeptInOrder(input, buffersize, |input|);
    }
  }
}
