/** Cutting a trace into phases of `k` distinct pages, as the trace reducer does by flushing its
    buffer, and what each cut costs any paging policy. */
module Phases {
  import opened Residency
  import opened Optimal

  /** The buffer after one more reference, and whether it was flushed on the way. */
  function Buffer(b: set<nat>, p: nat, k: nat): set<nat> {
    if p in b then b else if |b| == k then {p} else b + {p}
  }

  predicate Flushed(b: set<nat>, p: nat, k: nat) {
    p !in b && |b| == k
  }

  /** How often the buffer is flushed over `pages`. */
  function Flushes(b: set<nat>, pages: seq<nat>, k: nat): nat
    decreases |pages|
  {
    if pages == [] then 0 else
    (if Flushed(b, pages[0], k) then 1 else 0) + Flushes(Buffer(b, pages[0], k), pages[1..], k)
  }

  /** From here on a run misses at least once per flush, one less if the buffered pages are not all
      in memory: then it has already paid for the current phase. */
  lemma {:induction false} FlushForcesMiss(f: seq<nat>, b: set<nat>, pages: seq<nat>, vs: seq<nat>, m: nat, k: nat)
    requires 0 < m <= k && |f| <= m && Distinct(f)
    requires |vs| == |pages| && InRange(vs, m)
    ensures Misses(f, pages, vs, m) + (if b <= SetOf(f) then 0 else 1) >= Flushes(b, pages, k)
    decreases |pages|
  {
    if pages != [] {
      var p := pages[0];
      var f' := Refer(f, p, vs[0], m);
      FlushForcesMiss(f', Buffer(b, p, k), pages[1..], vs[1..], m, k);
      assert p in SetOf(f');
      if b <= SetOf(f) && Flushed(b, p, k) && p in f {
        DistinctSize(f);
        SubsetSize(b + {p}, SetOf(f));
        assert false;
      }
    }
  }

  /** A nonempty trace whose buffer of `k` pages is flushed `n` times costs every policy with at most
      `k` frames at least `n + 1` misses. */
  lemma FlushesBoundMisses(pages: seq<nat>, vs: seq<nat>, m: nat, k: nat)
    requires 0 < m <= k && pages != [] && |vs| == |pages| && InRange(vs, m)
    ensures Misses([], pages, vs, m) >= Flushes({}, pages, k) + 1
  {
    var p := pages[0];
    FlushForcesMiss([p], {p}, pages[1..], vs[1..], m, k);
    assert Refer([], p, vs[0], m) == [p];
  }
}
