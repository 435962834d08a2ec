/** Belady's MIN as opt.c chooses it, and the proof that no other choice of victims misses less. */
module Optimal {
  import opened Options
  import opened Residency
  import opened Bookkeeping

  // -------------------------------------------------------- opt.c's choice

  /** is_next_frame: how many references come before the next one to `p`; None if there is none. */
  function NextUse(p: nat, head: seq<nat>): (r: Option<nat>)
    ensures r.Some? <==> p in head
    ensures r.Some? ==> r.value < |head| && head[r.value] == p && p !in head[..r.value]
  {
    if head == [] then None
    else if head[0] == p then Some(0)
    else
      match NextUse(p, head[1..])
      case None => None
      case Some(n) => assert head[..n + 1] == [head[0]] + head[1..][..n]; Some(n + 1)
  }

  lemma {:induction false} NextUseIsFirst(p: nat, head: seq<nat>, i: nat)
    requires i < |head| && head[i] == p
    ensures NextUse(p, head).Some? && NextUse(p, head).value <= i
  {
    if head[0] != p {
      NextUseIsFirst(p, head[1..], i - 1);
    }
  }

  /** Frame `v` holds a page whose next use is the furthest away: it is never used again, or every
      frame's page is, and none later than this one. */
  ghost predicate IsFurthest(f: seq<nat>, head: seq<nat>, v: nat) {
    && v < |f|
    && (f[v] !in head ||
        forall i | 0 <= i < |f| :: f[i] in head && NextUse(f[i], head).value <= NextUse(f[v], head).value)
  }

  /** The first frame at or after `i` whose page is not used again. */
  function FirstUnused(f: seq<nat>, head: seq<nat>, i: nat): (r: Option<nat>)
    requires i <= |f|
    ensures r.Some? ==> i <= r.value < |f| && f[r.value] !in head && forall j | i <= j < r.value :: f[j] in head
    ensures r.None? ==> forall j | i <= j < |f| :: f[j] in head
    decreases |f| - i
  {
    if i == |f| then None else if f[i] !in head then Some(i) else FirstUnused(f, head, i + 1)
  }

  lemma FirstUnusedIs(f: seq<nat>, head: seq<nat>, i: nat)
    requires i < |f| && f[i] !in head && forall j | 0 <= j < i :: f[j] in head
    ensures FirstUnused(f, head, 0) == Some(i)
  {
    var r := FirstUnused(f, head, 0);
    assert r.Some? ==> r.value >= i;
  }

  /** The distance to the next use, where there is one. */
  function Distance(p: nat, head: seq<nat>): nat {
    match NextUse(p, head)
    case None => 0
    case Some(n) => n
  }

  /** The first of the first `n` frames with the furthest next use. */
  function Furthest(f: seq<nat>, head: seq<nat>, n: nat): (v: nat)
    requires 0 < n <= |f|
    ensures v < n
    ensures forall j | 0 <= j < n :: Distance(f[j], head) <= Distance(f[v], head)
    ensures forall j | 0 <= j < v :: Distance(f[j], head) < Distance(f[v], head)
  {
    if n == 1 then 0 else
    var v := Furthest(f, head, n - 1);
    if Distance(f[n - 1], head) > Distance(f[v], head) then n - 1 else v
  }

  /** Exactly the frame opt_evict returns. */
  function OptVictim(f: seq<nat>, head: seq<nat>): (v: nat)
    requires f != []
    ensures v < |f| && (head == [] ==> v == 0)
    ensures forall j | 0 <= j < v :: f[j] in head
    ensures f[v] in head ==> forall j | 0 <= j < v :: Distance(f[j], head) < Distance(f[v], head)
  {
    match FirstUnused(f, head, 0)
    case Some(i) => i
    case None => Furthest(f, head, |f|)
  }

  lemma OptVictimIsFurthest(f: seq<nat>, head: seq<nat>)
    requires f != []
    ensures IsFurthest(f, head, OptVictim(f, head))
  {
    hide NextUse;
    forall i | 0 <= i < |f| && f[i] in head ensures Distance(f[i], head) == NextUse(f[i], head).value {
    }
  }

  /** Every eviction of the run over `pages` takes a furthest victim, the list at that moment
      being the references still to come. */
  ghost predicate IsMinRun(f: seq<nat>, pages: seq<nat>, victims: seq<nat>, m: nat)
    requires |f| <= m && |victims| == |pages| && InRange(victims, m)
    decreases |pages|
  {
    pages == [] ||
    (&& (pages[0] in f || |f| < m || IsFurthest(f, pages, victims[0]))
     && IsMinRun(Refer(f, pages[0], victims[0], m), pages[1..], victims[1..], m))
  }

  // ---------------------------------------------------------- the potential

  function SetOf(s: seq<nat>): set<nat> {
    set x | x in s
  }

  /** How many of the pages in `f` are used within the first `n` references. */
  ghost function Soon(f: seq<nat>, pages: seq<nat>, n: nat): nat
    requires n <= |pages|
  {
    |SetOf(f) * SetOf(pages[..n])|
  }

  /** Within any number of references `g` has at most `d` useful pages more than `f`. */
  ghost predicate Behind(f: seq<nat>, g: seq<nat>, pages: seq<nat>, d: int) {
    d >= 0 && forall n: nat | n <= |pages| :: Soon(g, pages, n) <= Soon(f, pages, n) + d
  }

  lemma {:induction false} DistinctSize(f: seq<nat>)
    ensures |SetOf(f)| <= |f|
    ensures Distinct(f) ==> |SetOf(f)| == |f|
  {
    if f != [] {
      var n := |f| - 1;
      DistinctSize(f[..n]);
      assert SetOf(f) == SetOf(f[..n]) + {f[n]};
      if Distinct(f) {
        assert f[n] !in SetOf(f[..n]);
      }
    }
  }

  /** The pages a reference leaves in memory: a hit keeps all, a miss drops the victim's at most. */
  lemma ReferSet(f: seq<nat>, p: nat, v: nat, m: nat)
    requires |f| <= m && v < m && Distinct(f)
    ensures SetOf(Refer(f, p, v, m)) ==
      if p in f || |f| < m then SetOf(f) + {p} else SetOf(f) - {f[v]} + {p}
  {
    if p !in f && |f| == m {
      var r := f[v := p];
      forall x | x in SetOf(f) - {f[v]} + {p} ensures x in r {
        if x != p {
          var i :| 0 <= i < |f| && f[i] == x;
          assert r[i] == x;
        } else {
          assert r[v] == p;
        }
      }
      forall x | x in r ensures x in SetOf(f) - {f[v]} + {p} {
        var i :| 0 <= i < |r| && r[i] == x;
        assert i != v ==> f[i] != f[v];
      }
    }
  }

  /** Counting the other pages: those besides the one being referenced, over the window before
      and after the reference. */
  lemma SoonAfter(r: seq<nat>, pages: seq<nat>, n: nat)
    requires pages != [] && n < |pages| && pages[0] in r
    ensures Soon(r, pages[1..], n) ==
      |(SetOf(r) - {pages[0]}) * SetOf(pages[..n + 1])| + (if pages[0] in pages[1..][..n] then 1 else 0)
  {
    var p := pages[0];
    var w, u := SetOf(pages[..n + 1]), SetOf(pages[1..][..n]);
    assert pages[..n + 1] == [p] + pages[1..][..n];
    assert w == u + {p};
    var rest := (SetOf(r) - {p}) * w;
    if p in pages[1..][..n] {
      assert SetOf(r) * u == rest + {p};
    } else {
      assert SetOf(r) * u == rest;
    }
  }

  /** The same count for the memory before the reference. */
  lemma SoonBefore(f: seq<nat>, pages: seq<nat>, n: nat)
    requires pages != [] && n < |pages|
    ensures Soon(f, pages, n + 1) ==
      |(SetOf(f) - {pages[0]}) * SetOf(pages[..n + 1])| + (if pages[0] in f then 1 else 0)
  {
    var p, w := pages[0], SetOf(pages[..n + 1]);
    assert pages[..n + 1][0] == p;
    var rest := (SetOf(f) - {p}) * w;
    if p in f {
      assert SetOf(f) * w == rest + {p};
    } else {
      assert SetOf(f) * w == rest;
    }
  }

  /** Pages of `f` other than `p` that are used within the window. */
  ghost function Others(f: seq<nat>, p: nat, w: set<nat>): set<nat> {
    (SetOf(f) - {p}) * w
  }

  /** Whatever is evicted, a miss leaves no more useful other pages than before and at most m - 1. */
  lemma AnyVictim(g: seq<nat>, p: nat, v: nat, m: nat, w: set<nat>)
    requires |g| <= m && v < m && Distinct(g)
    ensures Others(Refer(g, p, v, m), p, w) <= Others(g, p, w)
    ensures |Others(Refer(g, p, v, m), p, w)| <= m - 1
  {
    var r := Refer(g, p, v, m);
    ReferSet(g, p, v, m);
    DistinctSize(r);
    assert Others(r, p, w) <= SetOf(r) - {p};
    SubsetSize(Others(r, p, w), SetOf(r) - {p});
    assert |SetOf(r) - {p}| == |SetOf(r)| - 1;
  }

  lemma {:induction false} SubsetSize(a: set<nat>, b: set<nat>)
    requires a <= b
    ensures |a| <= |b|
    decreases b
  {
    if b != {} {
      var x :| x in b;
      SubsetSize(a - {x}, b - {x});
    }
  }

  lemma AllUsedWithin(f: seq<nat>, pages: seq<nat>, last: nat, n: nat)
    requires last <= n < |pages|
    requires forall i | 0 <= i < |f| :: f[i] in pages && NextUse(f[i], pages).value <= last
    ensures forall x | x in f :: x in SetOf(pages[..n + 1])
  {
    forall x | x in f ensures x in SetOf(pages[..n + 1]) {
      var i :| 0 <= i < |f| && f[i] == x;
      assert pages[..n + 1][NextUse(f[i], pages).value] == x;
    }
  }

  /** Evicting the furthest page loses no useful page in any window, or leaves all m - 1 others useful. */
  lemma FurthestVictim(f: seq<nat>, pages: seq<nat>, v: nat, m: nat, n: nat)
    requires |f| <= m && v < m && Distinct(f) && pages != [] && n < |pages|
    requires pages[0] in f || |f| < m || IsFurthest(f, pages, v)
    ensures var p, w := pages[0], SetOf(pages[..n + 1]);
      || Others(Refer(f, p, v, m), p, w) == Others(f, p, w)
      || |Others(Refer(f, p, v, m), p, w)| == m - 1
  {
    var p, w := pages[0], SetOf(pages[..n + 1]);
    var r := Refer(f, p, v, m);
    ReferSet(f, p, v, m);
    if p !in f && |f| == m && f[v] in w {
      var last := NextUse(f[v], pages).value;
      var i :| 0 <= i < n + 1 && pages[..n + 1][i] == f[v];
      NextUseIsFirst(f[v], pages, i);
      AllUsedWithin(f, pages, last, n);
      DistinctSize(r);
      assert Others(r, p, w) == SetOf(r) - {p};
      assert |SetOf(r) - {p}| == m - 1;
    }
  }

  /** One reference moves the potential by as much as the two runs differ in misses, or better. */
  lemma PotentialStep(f: seq<nat>, g: seq<nat>, pages: seq<nat>, v: nat, u: nat, m: nat, d: int)
    requires |f| <= m && |g| <= m && v < m && u < m && Distinct(f) && Distinct(g) && pages != []
    requires pages[0] in f || |f| < m || IsFurthest(f, pages, v)
    requires Behind(f, g, pages, d)
    ensures Behind(Refer(f, pages[0], v, m), Refer(g, pages[0], u, m), pages[1..],
                   d + (if pages[0] in g then 0 else 1) - (if pages[0] in f then 0 else 1))
  {
    var p := pages[0];
    var f', g' := Refer(f, p, v, m), Refer(g, p, u, m);
    var d' := d + (if p in g then 0 else 1) - (if p in f then 0 else 1);
    SoonBefore(f, pages, 0);
    SoonBefore(g, pages, 0);
    assert Soon(g, pages, 1) <= Soon(f, pages, 1) + d;
    assert pages[..1] == [p];
    assert Others(f, p, SetOf(pages[..1])) == {} && Others(g, p, SetOf(pages[..1])) == {};
    assert d' >= 0;
    forall n: nat | n <= |pages[1..]| ensures Soon(g', pages[1..], n) <= Soon(f', pages[1..], n) + d' {
      var w := SetOf(pages[..n + 1]);
      SoonAfter(f', pages, n);
      SoonAfter(g', pages, n);
      SoonBefore(f, pages, n);
      SoonBefore(g, pages, n);
      AnyVictim(g, p, u, m, w);
      SubsetSize(Others(g', p, w), Others(g, p, w));
      FurthestVictim(f, pages, v, m, n);
      assert Soon(g, pages, n + 1) <= Soon(f, pages, n + 1) + d;
    }
  }

  /** From any two memories, a run that always evicts the furthest page misses at most `d` times more
      than any other run, where `d` bounds how far its memory is behind. */
  lemma {:induction false} MinWithin(
      f: seq<nat>, g: seq<nat>, pages: seq<nat>, vs: seq<nat>, us: seq<nat>, m: nat, d: int)
    requires |f| <= m && |g| <= m && Distinct(f) && Distinct(g)
    requires |vs| == |pages| == |us| && InRange(vs, m) && InRange(us, m)
    requires IsMinRun(f, pages, vs, m) && Behind(f, g, pages, d)
    ensures Misses(f, pages, vs, m) <= Misses(g, pages, us, m) + d
    decreases |pages|
  {
    if pages != [] {
      var p := pages[0];
      PotentialStep(f, g, pages, vs[0], us[0], m, d);
      MinWithin(Refer(f, p, vs[0], m), Refer(g, p, us[0], m), pages[1..], vs[1..], us[1..], m,
                d + (if p in g then 0 else 1) - (if p in f then 0 else 1));
    }
  }

  /** MIN is optimal: on every trace and memory size, no choice of victims misses less often. */
  lemma MinIsOptimal(pages: seq<nat>, vs: seq<nat>, us: seq<nat>, m: nat)
    requires |vs| == |pages| == |us| && InRange(vs, m) && InRange(us, m)
    requires IsMinRun([], pages, vs, m)
    ensures Misses([], pages, vs, m) <= Misses([], pages, us, m)
  {
    forall n: nat | n <= |pages| ensures Soon([], pages, n) == 0 {
      assert SetOf([]) * SetOf(pages[..n]) == {};
    }
    MinWithin([], [], pages, vs, us, m, 0);
  }

  // ---------------------------------------------- always evicting frame 0

  function Zeros(k: nat): (z: seq<nat>)
    ensures |z| == k && forall i | 0 <= i < k :: z[i] == 0
  {
    seq(k, _ => 0)
  }

  predicate Below(pages: seq<nat>, n: nat) {
    forall i | 0 <= i < |pages| :: pages[i] < n
  }

  lemma BelowMore(pages: seq<nat>, m: nat, n: nat)
    requires Below(pages, m) && m <= n
    ensures Below(pages, n)
  {
  }

  /** Frame 0 as every victim is minimal on all traces over `n` pages. */
  ghost predicate FrameZeroIsOptimal(m: nat, n: nat)
    requires m > 0
  {
    forall pages: seq<nat>, us: seq<nat> | Below(pages, n) && |us| == |pages| && InRange(us, m) ::
      Misses([], pages, Zeros(|pages|), m) <= Misses([], pages, us, m)
  }

  /** A full memory with room for all pages holds all pages. */
  lemma AllLoaded(f: seq<nat>, m: nat, n: nat, p: nat)
    requires |f| == m && n <= m && Distinct(f) && Below(f, n) && p < n
    ensures p in f
  {
    hide Below;
    DistinctSize(f);
    forall x | x in SetOf(f) ensures x < n {
      BelowHas(f, n, x);
    }
    AllBelow(SetOf(f), n);
    assert p in SetOf(f);
  }

  lemma BelowHas(f: seq<nat>, n: nat, x: nat)
    requires Below(f, n) && x in f
    ensures x < n
  {
  }

  /** With one frame, or with one for every page, the choice of victims makes no difference. */
  lemma {:induction false} NoChoice(f: seq<nat>, pages: seq<nat>, vs: seq<nat>, us: seq<nat>, m: nat, n: nat)
    requires m == 1 || n <= m
    requires |f| <= m && Distinct(f) && Below(f, n) && Below(pages, n)
    requires |vs| == |pages| == |us| && InRange(vs, m) && InRange(us, m)
    ensures Misses(f, pages, vs, m) == Misses(f, pages, us, m)
    decreases |pages|
  {
    if pages != [] {
      var p := pages[0];
      if p !in f && |f| == m && n <= m {
        AllLoaded(f, m, n, p);
      }
      assert Refer(f, p, vs[0], m) == Refer(f, p, us[0], m);
      NoChoice(Refer(f, p, vs[0], m), pages[1..], vs[1..], us[1..], m, n);
    }
  }

  function Upto(k: nat): (s: seq<nat>)
    ensures |s| == k && forall i | 0 <= i < k :: s[i] == i
  {
    seq(k, i => i)
  }

  lemma FillOne(k: nat, m: nat, pages: seq<nat>, v: nat, vs: seq<nat>)
    requires k < m && v < m && |vs| == |pages| && InRange(vs, m)
    ensures InRange([v] + vs, m)
    ensures Misses(Upto(k), [k] + pages, [v] + vs, m) == 1 + Misses(Upto(k + 1), pages, vs, m)
  {
    assert ([k] + pages)[1..] == pages && ([v] + vs)[1..] == vs;
    assert Refer(Upto(k), k, v, m) == Upto(k + 1);
  }

  /** The references 0 to m - 1 fill m frames, missing every time. */
  lemma {:induction false} Filling(k: nat, m: nat, rest: seq<nat>, vs: seq<nat>)
    requires k <= m && |vs| == m - k + |rest| && InRange(vs, m)
    ensures Misses(Upto(k), Upto(m)[k..] + rest, vs, m) == m - k + Misses(Upto(m), rest, vs[m - k..], m)
    decreases m - k
  {
    hide Misses;
    if k == m {
      assert Upto(m)[m..] + rest == rest;
    } else {
      Filling(k + 1, m, rest, vs[1..]);
      assert vs[1..][m - (k + 1)..] == vs[m - k..];
      FillOne(k, m, Upto(m)[k + 1..] + rest, vs[0], vs[1..]);
      assert [k] + (Upto(m)[k + 1..] + rest) == Upto(m)[k..] + rest && [vs[0]] + vs[1..] == vs;
    }
  }

  /** The trace 0 to m and 0 again, with victim `v` for page m: it brings page 0 in twice only if `v` is
      its frame. */
  lemma OnceAround(m: nat, v: nat, vs: seq<nat>)
    requires v < m && vs == Zeros(m) + [v, 0]
    ensures InRange(vs, m)
    ensures Misses([], Upto(m) + [m, 0], vs, m) == if v == 0 then m + 2 else m + 1
  {
    assert Upto(0) == [] && Upto(m)[0..] == Upto(m);
    Filling(0, m, [m, 0], vs);
    assert vs[m..] == [v, 0];
    LastTwo(m, v);
  }

  lemma LastTwo(m: nat, v: nat)
    requires v < m
    ensures InRange([v, 0], m)
    ensures Misses(Upto(m), [m, 0], [v, 0], m) == if v == 0 then 2 else 1
  {
    var f := Upto(m)[v := m];
    assert f[v] == m;
    assert v != 0 ==> f[0] == 0;
    assert [m, 0][1..] == [0] && [v, 0][1..] == [0] && [0][1..] == [];
    var g := Refer(f, 0, 0, m);
    assert Misses(g, [], [], m) == 0;
    assert Misses(f, [0], [0], m) == if 0 in f then 0 else 1;
  }

  /** Evicting frame 0 every time is minimal if and only if there is nothing to choose: with one frame, or
      with a frame for every page. */
  lemma FrameZeroIsOptimalIff(m: nat, n: nat)
    requires m > 0
    ensures FrameZeroIsOptimal(m, n) <==> m == 1 || n <= m
  {
    hide Misses;
    if m == 1 || n <= m {
      forall pages: seq<nat>, us: seq<nat> | Below(pages, n) && |us| == |pages| && InRange(us, m)
        ensures Misses([], pages, Zeros(|pages|), m) <= Misses([], pages, us, m)
      {
        NoChoice([], pages, Zeros(|pages|), us, m, n);
      }
    } else {
      var pages := Upto(m) + [m, 0];
      assert Zeros(|pages|) == Zeros(m) + [0, 0];
      OnceAround(m, 0, Zeros(|pages|));
      OnceAround(m, 1, Zeros(m) + [1, 0]);
    }
  }
}
