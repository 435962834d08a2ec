/** FIFO eviction: the round-robin index of fifo.c evicts in order of loading, and what follows. */
module Fifo {
  import opened Residency
  import opened Optimal
  import opened Phases

  /** Every eviction of the run takes the frame at the index, which then moves on by one. */
  predicate IsFifoRun(f: seq<nat>, ind: nat, pages: seq<nat>, victims: seq<nat>, m: nat)
    requires |f| <= m && |victims| == |pages| && InRange(victims, m)
    decreases |pages|
  {
    pages == [] ||
    (if pages[0] in f || |f| < m
     then IsFifoRun(Refer(f, pages[0], victims[0], m), ind, pages[1..], victims[1..], m)
     else victims[0] == ind &&
          IsFifoRun(Refer(f, pages[0], victims[0], m), (ind + 1) % m, pages[1..], victims[1..], m))
  }

  // -------------------------------------------------------------- the queue

  /** The pages in memory, oldest first: from the index to the end, then from the bottom. */
  function Queue(f: seq<nat>, ind: nat): seq<nat>
    requires ind <= |f|
  {
    f[ind..] + f[..ind]
  }

  /** The index moves only when memory is full. */
  predicate Turned(f: seq<nat>, ind: nat, m: nat) {
    |f| <= m && (if |f| < m then ind == 0 else ind < m)
  }

  function Enqueue(q: seq<nat>, p: nat, m: nat): (r: seq<nat>)
    requires |q| <= m && m > 0
    ensures |r| <= m && p in r
    ensures Distinct(q) ==> Distinct(r)
  {
    if p in q then q
    else if |q| < m then q + [p]
    else q[1..] + [p]
  }

  function QueueMisses(q: seq<nat>, pages: seq<nat>, m: nat): nat
    requires |q| <= m && m > 0
    decreases |pages|
  {
    if pages == [] then 0 else
    (if pages[0] in q then 0 else 1) + QueueMisses(Enqueue(q, pages[0], m), pages[1..], m)
  }

  lemma NextInCircle(ind: nat, m: nat)
    requires ind < m
    ensures (ind + 1) % m == if ind + 1 < m then ind + 1 else 0
  {
  }

  lemma Rotate(f: seq<nat>, ind: nat, p: nat)
    requires ind < |f|
    ensures Queue(f, ind)[1..] + [p] == f[ind + 1..] + (f[..ind] + [p])
  {
    assert f[ind..][1..] == f[ind + 1..];
  }

  /** Replacing the page at the index and moving on is leaving the queue at the front and joining at the back. */
  lemma EvictIsDequeue(f: seq<nat>, ind: nat, p: nat, m: nat)
    requires |f| == m && ind < m && p !in f
    ensures Queue(f[ind := p], (ind + 1) % m) == Queue(f, ind)[1..] + [p]
  {
    var g, next := f[ind := p], (ind + 1) % m;
    NextInCircle(ind, m);
    Rotate(f, ind, p);
    assert g[..ind + 1] == f[..ind] + [p] && g[ind + 1..] == f[ind + 1..];
    assert next == 0 ==> g[0..] == g[..ind + 1] && g[..0] == [] == g[ind + 1..];
  }

  /** Where the index stands after a reference. */
  function NextIndex(f: seq<nat>, ind: nat, p: nat, m: nat): nat
    requires m > 0
  {
    if p in f || |f| < m then ind else (ind + 1) % m
  }

  /** One FIFO reference is one reference of the queue. */
  lemma ReferIsEnqueue(f: seq<nat>, ind: nat, p: nat, v: nat, m: nat)
    requires m > 0 && Turned(f, ind, m) && v < m && (p in f || |f| < m || v == ind)
    ensures Turned(Refer(f, p, v, m), NextIndex(f, ind, p, m), m)
    ensures NextIndex(f, ind, p, m) <= |Refer(f, p, v, m)|
    ensures Queue(Refer(f, p, v, m), NextIndex(f, ind, p, m)) == Enqueue(Queue(f, ind), p, m)
    ensures p in f <==> p in Queue(f, ind)
  {
    var q := Queue(f, ind);
    assert f == f[..ind] + f[ind..];
    assert forall x :: x in q <==> x in f[ind..] || x in f[..ind];
    if p !in f && |f| < m {
      assert f + [p] == Queue(f + [p], 0) && q == f;
    } else if p !in f {
      EvictIsDequeue(f, ind, p, m);
    }
  }

  lemma {:induction false} FifoIsQueue(f: seq<nat>, ind: nat, pages: seq<nat>, vs: seq<nat>, m: nat)
    requires m > 0 && Turned(f, ind, m) && |vs| == |pages| && InRange(vs, m)
    requires IsFifoRun(f, ind, pages, vs, m)
    ensures Misses(f, pages, vs, m) == QueueMisses(Queue(f, ind), pages, m)
    decreases |pages|
  {
    if pages != [] {
      var p, v := pages[0], vs[0];
      ReferIsEnqueue(f, ind, p, v, m);
      hide Queue, Refer, Enqueue, Turned;
      FifoIsQueue(Refer(f, p, v, m), NextIndex(f, ind, p, m), pages[1..], vs[1..], m);
    }
  }

  // ----------------------------------------------------------- conservative

  /** The last `c` pages of the queue all belong to `d`. */
  predicate Recent(q: seq<nat>, c: nat, d: set<nat>) {
    c <= |q| && forall i | |q| - c <= i < |q| :: q[i] in d
  }

  lemma RecentWider(q: seq<nat>, c: nat, c': nat, d: set<nat>, d': set<nat>)
    requires Recent(q, c, d) && (c' == 0 || (c' <= c && d <= d'))
    ensures Recent(q, c', d')
  {
  }

  lemma RecentSize(q: seq<nat>, c: nat, d: set<nat>)
    requires Recent(q, c, d) && Distinct(q)
    ensures c <= |d|
    ensures forall p | p in d && p !in q :: c < |d|
  {
    var tail := q[|q| - c..];
    DistinctSize(tail);
    SubsetSize(SetOf(tail), d);
    forall p | p in d && p !in q ensures c < |d| {
      SubsetSize(SetOf(tail) + {p}, d);
    }
  }

  /** A page that joins the queue stays while fewer than `m` others join. */
  lemma RecentStep(q: seq<nat>, c: nat, d: set<nat>, p: nat, m: nat)
    requires |q| <= m && m > 0 && Distinct(q) && Recent(q, c, d) && p in d
    requires p !in q ==> c < m
    ensures Recent(Enqueue(q, p, m), if p in q then c else c + 1, d)
  {
  }

  /** `c` pages of the segment are already the latest to be loaded: at most the others still miss. */
  lemma {:induction false} SegmentMisses(q: seq<nat>, pages: seq<nat>, m: nat, d: set<nat>, c: nat)
    requires m > 0 && |q| <= m && Distinct(q) && |d| <= m
    requires (forall p | p in pages :: p in d) && Recent(q, c, d)
    ensures QueueMisses(q, pages, m) + c <= |d|
    decreases |pages|
  {
    RecentSize(q, c, d);
    if pages != [] {
      var p := pages[0];
      RecentStep(q, c, d, p, m);
      SegmentMisses(Enqueue(q, p, m), pages[1..], m, d, if p in q then c else c + 1);
    }
  }

  /** FIFO is conservative: any stretch of references to at most `m` distinct pages, from any state
      the index can be in, misses at most once per page. */
  lemma FifoIsConservative(f: seq<nat>, ind: nat, pages: seq<nat>, vs: seq<nat>, m: nat)
    requires m > 0 && Turned(f, ind, m) && Distinct(f) && |vs| == |pages| && InRange(vs, m)
    requires IsFifoRun(f, ind, pages, vs, m) && |SetOf(pages)| <= m
    ensures Misses(f, pages, vs, m) <= |SetOf(pages)|
  {
    FifoIsQueue(f, ind, pages, vs, m);
    QueueDistinct(f, ind);
    SegmentMisses(Queue(f, ind), pages, m, SetOf(pages), 0);
  }

  lemma QueueDistinct(f: seq<nat>, ind: nat)
    requires ind <= |f| && Distinct(f)
    ensures Distinct(Queue(f, ind))
  {
  }

  // ------------------------------------------------------------ competitive

  /** `m` misses for each of `n` phases. */
  function PhaseBound(m: nat, n: nat): nat {
    if n == 0 then 0 else m + PhaseBound(m, n - 1)
  }

  lemma {:induction false} PhaseBoundIsProduct(m: nat, n: nat)
    ensures PhaseBound(m, n) == m * n
  {
    if n > 0 {
      PhaseBoundIsProduct(m, n - 1);
      assert m * n == m * (n - 1) + m;
    }
  }

  lemma {:induction false} PhaseBoundGrows(m: nat, a: nat, b: nat)
    requires a <= b
    ensures PhaseBound(m, a) <= PhaseBound(m, b)
  {
    if a < b {
      PhaseBoundGrows(m, a, b - 1);
    }
  }

  lemma BufferSize(b: set<nat>, p: nat, m: nat)
    requires |b| <= m && m > 0
    ensures |Buffer(b, p, m)| <= m && p in Buffer(b, p, m)
    ensures !Flushed(b, p, m) ==> b <= Buffer(b, p, m) && (p in b || |b| < m)
  {
  }

  /** FIFO misses at most `m` times per phase; `c` misses of the current phase are already counted. */
  lemma {:induction false} PhaseMisses(q: seq<nat>, b: set<nat>, pages: seq<nat>, m: nat, c: nat)
    requires m > 0 && |q| <= m && Distinct(q) && |b| <= m && Recent(q, c, b)
    ensures QueueMisses(q, pages, m) + c <= PhaseBound(m, Flushes(b, pages, m) + 1)
    decreases |pages|
  {
    hide Recent, Enqueue, Distinct, Buffer, Flushed;
    RecentSize(q, c, b);
    if pages == [] {
      assert PhaseBound(m, 1) == m + PhaseBound(m, 0);
    } else {
      var p := pages[0];
      var b' := Buffer(b, p, m);
      BufferSize(b, p, m);
      var c0 := if Flushed(b, p, m) then 0 else c;
      RecentWider(q, c, c0, b, b');
      RecentStep(q, c0, b', p, m);
      PhaseMisses(Enqueue(q, p, m), b', pages[1..], m, if p in q then c0 else c0 + 1);
    }
  }

  lemma FifoWithinPhases(pages: seq<nat>, vs: seq<nat>, m: nat)
    requires m > 0 && |vs| == |pages| && InRange(vs, m) && IsFifoRun([], 0, pages, vs, m)
    ensures Misses([], pages, vs, m) <= PhaseBound(m, Flushes({}, pages, m) + 1)
  {
    hide Misses, Flushes, QueueMisses, IsFifoRun, PhaseBound;
    FifoIsQueue([], 0, pages, vs, m);
    assert Queue([], 0) == [];
    PhaseMisses([], {}, pages, m, 0);
  }

  lemma FifoWithin(pages: seq<nat>, vs: seq<nat>, us: seq<nat>, m: nat)
    requires m > 0 && |vs| == |pages| == |us| && InRange(vs, m) && InRange(us, m)
    requires IsFifoRun([], 0, pages, vs, m)
    ensures Misses([], pages, vs, m) <= PhaseBound(m, Misses([], pages, us, m))
  {
    if pages != [] {
      FifoWithinPhases(pages, vs, m);
      FlushesBoundMisses(pages, us, m, m);
      PhaseBoundGrows(m, Flushes({}, pages, m) + 1, Misses([], pages, us, m));
    }
  }

  /** FIFO is `m`-competitive: started from empty memory, on every trace, it misses at most `m` times as
      often as any other policy with the same number of frames. */
  lemma FifoIsCompetitive(pages: seq<nat>, vs: seq<nat>, us: seq<nat>, m: nat)
    requires m > 0 && |vs| == |pages| == |us| && InRange(vs, m) && InRange(us, m)
    requires IsFifoRun([], 0, pages, vs, m)
    ensures Misses([], pages, vs, m) <= m * Misses([], pages, us, m)
  {
    FifoWithin(pages, vs, us, m);
    PhaseBoundIsProduct(m, Misses([], pages, us, m));
  }
}
