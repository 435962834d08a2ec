/** Naive and blocked matrix multiplication over any zero, addition and multiplication: no algebraic law
    is used, so the results agree even for floating-point arithmetic. */
module Multiply {
  import opened Layout

  datatype Arith<!T> = Arith(zero: T, add: (T, T) -> T, mul: (T, T) -> T)

  // ------------------------------------------------------- the specification

  lemma CellBelow(i: nat, j: nat, n: nat)
    requires i < n && j < n
    ensures Pair(i, j, n) < n * n
  {
    PairRange(i, j, n, n);
  }

  /** The first `k` products of row `i` and column `j`, added from the left, starting from zero. */
  function Dot<T>(ar: Arith<T>, x: seq<T>, y: seq<T>, n: nat, i: nat, j: nat, k: nat): T
    requires |x| == |y| == n * n && i < n && j < n && k <= n
    decreases k
  {
    if k == 0 then ar.zero else
    CellBelow(i, k - 1, n);
    CellBelow(k - 1, j, n);
    ar.add(Dot(ar, x, y, n, i, j, k - 1), ar.mul(x[Pair(i, k - 1, n)], y[Pair(k - 1, j, n)]))
  }

  /** `z` is the product of `x` and `y`, all three stored by rows. */
  ghost predicate IsProduct<T>(ar: Arith<T>, x: seq<T>, y: seq<T>, z: seq<T>, n: nat) {
    && |x| == |y| == |z| == n * n
    && forall i: nat, j: nat {:trigger Pair(i, j, n)} | i < n && j < n ::
         Pair(i, j, n) < n * n && z[Pair(i, j, n)] == Dot(ar, x, y, n, i, j, n)
  }

  /** A product is determined by its factors. */
  lemma ProductIsUnique<T>(ar: Arith<T>, x: seq<T>, y: seq<T>, z: seq<T>, z': seq<T>, n: nat)
    requires IsProduct(ar, x, y, z, n) && IsProduct(ar, x, y, z', n)
    ensures z == z'
  {
    forall t | 0 <= t < |z| ensures z[t] == z'[t] {
      PairSplits(t, n, n);
      var i, j := Quot(t, n), Rem(t, n);
      assert Pair(i, j, n) == t;
    }
  }

  // ------------------------------------------------ the sum, written out

  /** A sum kept as the list of what was added: the starting zero, an entry, or a product of two entries. */
  datatype Summand = Nought | Entry(at: int) | Product(left: int, right: int)

  /** Arithmetic that computes nothing and writes everything down, in order. */
  function Formal(): Arith<seq<Summand>> {
    Arith([Nought], (a, b) => a + b, ProductOf)
  }

  function ProductOf(a: seq<Summand>, b: seq<Summand>): seq<Summand> {
    if |a| == 1 && |b| == 1 && a[0].Entry? && b[0].Entry? then [Product(a[0].at, b[0].at)] else []
  }

  function Entries(size: nat): (x: seq<seq<Summand>>)
    ensures |x| == size && forall c | 0 <= c < size :: x[c] == [Entry(c)]
  {
    seq(size, c => [Entry(c)])
  }

  function Products(n: nat, i: nat, j: nat, k: nat): (s: seq<Summand>)
    ensures |s| == k && forall c | 0 <= c < k :: s[c] == Product(i * n + c, c * n + j)
  {
    seq(k, c requires 0 <= c => Product(i * n + c, c * n + j))
  }

  lemma {:induction false} DotWrittenOut(n: nat, i: nat, j: nat, k: nat)
    requires i < n && j < n && k <= n
    ensures Dot(Formal(), Entries(n * n), Entries(n * n), n, i, j, k) == [Nought] + Products(n, i, j, k)
  {
    if k > 0 {
      DotWrittenOut(n, i, j, k - 1);
      CellBelow(i, k - 1, n);
      CellBelow(k - 1, j, n);
      assert Products(n, i, j, k) == Products(n, i, j, k - 1) + [Product(i * n + (k - 1), (k - 1) * n + j)];
    }
  }

  /** What a product is: entry (i, j) is zero, then the products of entries (i, k) and (k, j) added on the right
      for k from 0 to n - 1. */
  lemma ProductWrittenOut(z: seq<seq<Summand>>, n: nat, i: nat, j: nat)
    requires IsProduct(Formal(), Entries(n * n), Entries(n * n), z, n) && i < n && j < n
    ensures i * n + j < |z| && z[i * n + j] == [Nought] + Products(n, i, j, n)
  {
    DotWrittenOut(n, i, j, n);
    assert Pair(i, j, n) == i * n + j;
  }

  /** The same sum for blocked factors: the products up to block `kb` and, in that block, up to `k`. */
  function BlockDot<T>(ar: Arith<T>, x: seq<T>, y: seq<T>, nb: nat, b: nat, p: Place, kb: nat, k: nat): T
    requires |x| == |y| == Cells(nb, b) && InMatrix(p, nb, b)
    requires k <= b && kb <= nb && (kb == nb ==> k == 0)
    decreases kb, k
  {
    if k > 0 then
      var u, v := Place(p.bi, kb, p.i, k - 1), Place(kb, p.bj, k - 1, p.j);
      InRange(u, nb, b);
      InRange(v, nb, b);
      ar.add(BlockDot(ar, x, y, nb, b, p, kb, k - 1), ar.mul(x[At(u, nb, b)], y[At(v, nb, b)]))
    else if kb > 0 then BlockDot(ar, x, y, nb, b, p, kb - 1, b)
    else ar.zero
  }

  lemma RowOfPlace(p: Place, nb: nat, b: nat, n: nat)
    requires InMatrix(p, nb, b) && n == nb * b
    ensures Pair(p.bi, p.i, b) < n && Pair(p.bj, p.j, b) < n
    ensures Row(p, nb, b) == Pair(Pair(p.bi, p.i, b), Pair(p.bj, p.j, b), n)
  {
    PairRange(p.bi, p.i, nb, b);
    PairRange(p.bj, p.j, nb, b);
    RowForm(p, nb, b);
  }

  lemma NextTerm(kb: nat, k: nat, nb: nat, b: nat, n: nat)
    requires n == nb * b && k <= b && kb <= nb && (kb == nb ==> k == 0)
    ensures Pair(kb, k, b) <= n
    ensures k > 0 ==> Pair(kb, k, b) == Pair(kb, k - 1, b) + 1
    ensures k == 0 && kb > 0 ==> Pair(kb, k, b) == Pair(kb - 1, b, b)
    ensures Pair(nb, 0, b) == n && Pair(0, 0, b) == 0
  {
    MoreRows(kb, nb, b);
    if kb > 0 {
      MoreRows(kb - 1, kb, b);
      assert kb * b == (kb - 1) * b + b;
    }
  }

  /** Blocked factors give the same sum: the same products in the same order. */
  lemma {:induction false} BlockDotIsDot<T>(
      ar: Arith<T>, x: seq<T>, y: seq<T>, x': seq<T>, y': seq<T>, nb: nat, b: nat, n: nat, p: Place, kb: nat, k: nat)
    requires n == nb * b && |x| == |y| == n * n
    requires SameMatrix(x, x', nb, b) && SameMatrix(y, y', nb, b) && InMatrix(p, nb, b)
    requires k <= b && kb <= nb && (kb == nb ==> k == 0)
    ensures Pair(kb, k, b) <= n && Pair(p.bi, p.i, b) < n && Pair(p.bj, p.j, b) < n
    ensures BlockDot(ar, x', y', nb, b, p, kb, k) ==
            Dot(ar, x, y, n, Pair(p.bi, p.i, b), Pair(p.bj, p.j, b), Pair(kb, k, b))
    decreases kb, k
  {
    hide At, Row, Pair;
    RowOfPlace(p, nb, b, n);
    NextTerm(kb, k, nb, b, n);
    if k > 0 {
      var u, v := Place(p.bi, kb, p.i, k - 1), Place(kb, p.bj, k - 1, p.j);
      BlockDotIsDot(ar, x, y, x', y', nb, b, n, p, kb, k - 1);
      RowOfPlace(u, nb, b, n);
      RowOfPlace(v, nb, b, n);
      assert InMatrix(u, nb, b) && InMatrix(v, nb, b);
    } else if kb > 0 {
      BlockDotIsDot(ar, x, y, x', y', nb, b, n, p, kb - 1, b);
    }
  }

  // ------------------------------------------------------------ the naive one

  method MatMult<T>(ar: Arith<T>, x: array<T>, y: array<T>, z: array<T>, n: nat)
    requires x.Length == y.Length == z.Length == n * n && z != x && z != y
    modifies z
    ensures IsProduct(ar, x[..], y[..], z[..], n)
    ensures x[..] == old(x[..]) && y[..] == old(y[..])
  {
    hide Pair;
    for i := 0 to n
      invariant x[..] == old(x[..]) && y[..] == old(y[..])
      invariant RowsDone(ar, x[..], y[..], z[..], n, i, 0)
    {
      for j := 0 to n
        invariant x[..] == old(x[..]) && y[..] == old(y[..])
        invariant RowsDone(ar, x[..], y[..], z[..], n, i, j)
      {
        CellBelow(i, j, n);
        ghost var was := z[..];
        z[Pair(i, j, n)] := ar.zero;
        OtherCellsKept(ar, x[..], y[..], was, n, i, j, ar.zero);
        for k := 0 to n
          invariant x[..] == old(x[..]) && y[..] == old(y[..])
          invariant RowsDone(ar, x[..], y[..], z[..], n, i, j)
          invariant z[Pair(i, j, n)] == Dot(ar, x[..], y[..], n, i, j, k)
        {
          CellBelow(i, k, n);
          CellBelow(k, j, n);
          was := z[..];
          z[Pair(i, j, n)] := ar.add(z[Pair(i, j, n)], ar.mul(x[Pair(i, k, n)], y[Pair(k, j, n)]));
          OtherCellsKept(ar, x[..], y[..], was, n, i, j, z[Pair(i, j, n)]);
        }
      }
    }
  }

  /** The cells before row `i`, column `j` are done. */
  ghost predicate RowsDone<T>(ar: Arith<T>, x: seq<T>, y: seq<T>, z: seq<T>, n: nat, i: nat, j: nat) {
    && |x| == |y| == |z| == n * n
    && forall r: nat, c: nat {:trigger Pair(r, c, n)} | r < n && c < n && (r < i || (r == i && c < j)) ::
         Pair(r, c, n) < n * n && z[Pair(r, c, n)] == Dot(ar, x, y, n, r, c, n)
  }

  lemma OtherCellsKept<T>(ar: Arith<T>, x: seq<T>, y: seq<T>, z: seq<T>, n: nat, i: nat, j: nat, v: T)
    requires RowsDone(ar, x, y, z, n, i, j) && i < n && j < n && Pair(i, j, n) < |z|
    ensures RowsDone(ar, x, y, z[Pair(i, j, n) := v], n, i, j)
  {
    hide Pair;
    forall r: nat, c: nat | r < n && c < n && (r < i || (r == i && c < j))
      ensures Pair(r, c, n) < n * n && Pair(r, c, n) != Pair(i, j, n)
    {
      CellBelow(r, c, n);
      if Pair(r, c, n) == Pair(i, j, n) {
        PairInjective(r, c, i, j, n);
      }
    }
  }

  // ---------------------------------------------------------- the blocked one

  /** Place `p` comes before row `i`, column `j` of its block. */
  predicate Before(p: Place, i: nat, j: nat) {
    p.i < i || (p.i == i && p.j < j)
  }

  /** How many products of block `kb` place `p` has received when the loops of Mult_add stand at (i, j, k). */
  function Received(p: Place, i: nat, j: nat, k: nat, b: nat): nat {
    if Before(p, i, j) then b else if p.i == i && p.j == j then k else 0
  }

  /** Mult_add for block (ib, jb) and products `kb` at (i, j, k): the block's cells hold what they have
      received, all others hold what they held in `c0`. */
  ghost predicate AddProgress<T>(
      ar: Arith<T>, x: seq<T>, y: seq<T>, c0: seq<T>, c: seq<T>, nb: nat, b: nat,
      ib: nat, jb: nat, kb: nat, i: nat, j: nat, k: nat)
  {
    && |x| == |y| == |c0| == |c| == Cells(nb, b) && kb < nb && k <= b
    && forall p {:trigger InMatrix(p, nb, b)} | InMatrix(p, nb, b) ::
         && At(p, nb, b) < |c|
         && c[At(p, nb, b)] == if p.bi == ib && p.bj == jb
                               then BlockDot(ar, x, y, nb, b, p, kb, Received(p, i, j, k, b))
                               else c0[At(p, nb, b)]
  }

  /** One product added to one cell. */
  lemma AddOne<T>(
      ar: Arith<T>, x: seq<T>, y: seq<T>, c0: seq<T>, c: seq<T>, nb: nat, b: nat,
      ib: nat, jb: nat, kb: nat, i: nat, j: nat, k: nat)
    requires AddProgress(ar, x, y, c0, c, nb, b, ib, jb, kb, i, j, k)
    requires ib < nb && jb < nb && i < b && j < b && k < b
    ensures var p, u, v := Place(ib, jb, i, j), Place(ib, kb, i, k), Place(kb, jb, k, j);
      && At(p, nb, b) < |c| && At(u, nb, b) < |x| && At(v, nb, b) < |y|
      && AddProgress(ar, x, y, c0,
           c[At(p, nb, b) := ar.add(c[At(p, nb, b)], ar.mul(x[At(u, nb, b)], y[At(v, nb, b)]))],
           nb, b, ib, jb, kb, i, j, k + 1)
  {
    hide At;
    var p, u, v := Place(ib, jb, i, j), Place(ib, kb, i, k), Place(kb, jb, k, j);
    InRange(p, nb, b);
    InRange(u, nb, b);
    InRange(v, nb, b);
    var c' := c[At(p, nb, b) := ar.add(c[At(p, nb, b)], ar.mul(x[At(u, nb, b)], y[At(v, nb, b)]))];
    assert InMatrix(p, nb, b);
    forall q | InMatrix(q, nb, b)
      ensures At(q, nb, b) < |c'|
      ensures c'[At(q, nb, b)] == if q.bi == ib && q.bj == jb
                                  then BlockDot(ar, x, y, nb, b, q, kb, Received(q, i, j, k + 1, b))
                                  else c0[At(q, nb, b)]
    {
      Injective(p, q, nb, b);
      assert q == p ==> Received(q, i, j, k, b) == k && Received(q, i, j, k + 1, b) == k + 1;
      assert q != p && q.bi == ib && q.bj == jb ==> Received(q, i, j, k, b) == Received(q, i, j, k + 1, b);
    }
  }

  /** All products of a cell added: on to the next cell of the row. */
  lemma AddNextCell<T>(
      ar: Arith<T>, x: seq<T>, y: seq<T>, c0: seq<T>, c: seq<T>, nb: nat, b: nat,
      ib: nat, jb: nat, kb: nat, i: nat, j: nat)
    requires AddProgress(ar, x, y, c0, c, nb, b, ib, jb, kb, i, j, b)
    ensures AddProgress(ar, x, y, c0, c, nb, b, ib, jb, kb, i, j + 1, 0)
  {
    hide At;
    forall p | InMatrix(p, nb, b) ensures Received(p, i, j + 1, 0, b) == Received(p, i, j, b, b) {
    }
  }

  /** All cells of a row done: on to the next row. */
  lemma AddNextRow<T>(
      ar: Arith<T>, x: seq<T>, y: seq<T>, c0: seq<T>, c: seq<T>, nb: nat, b: nat,
      ib: nat, jb: nat, kb: nat, i: nat)
    requires AddProgress(ar, x, y, c0, c, nb, b, ib, jb, kb, i, b, 0)
    ensures AddProgress(ar, x, y, c0, c, nb, b, ib, jb, kb, i + 1, 0, 0)
  {
    hide At;
    forall p | InMatrix(p, nb, b) ensures Received(p, i + 1, 0, 0, b) == Received(p, i, b, 0, b) {
    }
  }

  /** Block (ib, jb) holds its sums up to block `kb`, all other cells what they held in `c0`. */
  ghost predicate BlockHolds<T>(
      ar: Arith<T>, x: seq<T>, y: seq<T>, c0: seq<T>, c: seq<T>, nb: nat, b: nat, ib: nat, jb: nat, kb: nat)
  {
    && |x| == |y| == |c0| == |c| == Cells(nb, b) && kb <= nb
    && forall p {:trigger InMatrix(p, nb, b)} | InMatrix(p, nb, b) ::
         && At(p, nb, b) < |c|
         && c[At(p, nb, b)] ==
              if p.bi == ib && p.bj == jb then BlockDot(ar, x, y, nb, b, p, kb, 0) else c0[At(p, nb, b)]
  }

  lemma AddBegins<T>(
      ar: Arith<T>, x: seq<T>, y: seq<T>, c0: seq<T>, c: seq<T>, nb: nat, b: nat, ib: nat, jb: nat, kb: nat)
    requires BlockHolds(ar, x, y, c0, c, nb, b, ib, jb, kb) && kb < nb
    ensures AddProgress(ar, x, y, c0, c, nb, b, ib, jb, kb, 0, 0, 0)
  {
    hide At;
  }

  lemma AddEnds<T>(
      ar: Arith<T>, x: seq<T>, y: seq<T>, c0: seq<T>, c: seq<T>, nb: nat, b: nat, ib: nat, jb: nat, kb: nat)
    requires AddProgress(ar, x, y, c0, c, nb, b, ib, jb, kb, b, 0, 0)
    ensures BlockHolds(ar, x, y, c0, c, nb, b, ib, jb, kb + 1)
  {
    hide At;
    forall p | InMatrix(p, nb, b) && p.bi == ib && p.bj == jb
      ensures BlockDot(ar, x, y, nb, b, p, kb + 1, 0) == BlockDot(ar, x, y, nb, b, p, kb, Received(p, b, 0, 0, b))
    {
    }
  }

  /** Numbers `x` and `y` with a digit each lie in the same stretch exactly if `x == y`. */
  lemma SameStretch(x: nat, inner: nat, y: nat, r: nat)
    requires inner < r
    ensures x == y <==> Times(y, r) <= Pair(x, inner, r) < Times(y, r) + r
  {
    MoreRows(x, y, r);
    MoreRows(y, x, r);
  }

  /** A block's first cell, and where its other cells are. */
  lemma AtIsPair(p: Place, nb: nat, b: nat)
    requires InMatrix(p, nb, b)
    ensures Pair(p.i, p.j, b) < Times(b, b)
    ensures At(p, nb, b) == Pair(Pair(p.bi, p.bj, nb), Pair(p.i, p.j, b), Times(b, b))
  {
    PairRange(p.i, p.j, b, b);
    AtForm(p, nb, b);
  }

  lemma BlockFits(ib: nat, jb: nat, nb: nat, b: nat)
    requires ib < nb && jb < nb
    ensures Times(Pair(ib, jb, nb), Times(b, b)) + Times(b, b) <= Cells(nb, b)
  {
    PairRange(ib, jb, nb, nb);
    MoreRows(ib * nb + jb, nb * nb, b * b);
    assert nb * nb * b * b == nb * nb * (b * b);
  }

  /** The cells of block (ib, jb) are the b * b cells from its first one on. */
  lemma BlockCells(p: Place, nb: nat, b: nat, ib: nat, jb: nat)
    requires InMatrix(p, nb, b) && ib < nb && jb < nb
    ensures var first := Times(Pair(ib, jb, nb), Times(b, b));
      && first + Times(b, b) <= Cells(nb, b)
      && (p.bi == ib && p.bj == jb <==> first <= At(p, nb, b) < first + Times(b, b))
  {
    hide At, Pair, Times, Cells;
    AtIsPair(p, nb, b);
    BlockFits(ib, jb, nb, b);
    SameStretch(Pair(p.bi, p.bj, nb), Pair(p.i, p.j, b), Pair(ib, jb, nb), Times(b, b));
    if Pair(p.bi, p.bj, nb) == Pair(ib, jb, nb) {
      PairInjective(p.bi, p.bj, ib, jb, nb);
    }
  }

  /** Zeroing the block's cells starts its sums. */
  lemma ZeroedBlockHolds<T>(
      ar: Arith<T>, x: seq<T>, y: seq<T>, c0: seq<T>, c: seq<T>, nb: nat, b: nat, ib: nat, jb: nat)
    requires |x| == |y| == |c0| == |c| == Cells(nb, b) && ib < nb && jb < nb
    requires var first := Times(Pair(ib, jb, nb), Times(b, b));
      forall t | 0 <= t < |c| :: c[t] == if first <= t < first + Times(b, b) then ar.zero else c0[t]
    ensures BlockHolds(ar, x, y, c0, c, nb, b, ib, jb, 0)
  {
    hide At, Cells;
    forall p | InMatrix(p, nb, b)
      ensures At(p, nb, b) < |c|
      ensures c[At(p, nb, b)] == if p.bi == ib && p.bj == jb then ar.zero else c0[At(p, nb, b)]
    {
      InRange(p, nb, b);
      BlockCells(p, nb, b, ib, jb);
    }
  }

  /** The blocks before (ib, jb) are done. */
  ghost predicate BlocksDone<T>(
      ar: Arith<T>, x: seq<T>, y: seq<T>, c: seq<T>, nb: nat, b: nat, ib: nat, jb: nat)
  {
    && |x| == |y| == |c| == Cells(nb, b)
    && forall p {:trigger InMatrix(p, nb, b)} |
         InMatrix(p, nb, b) && (p.bi < ib || (p.bi == ib && p.bj < jb)) ::
         At(p, nb, b) < |c| && c[At(p, nb, b)] == BlockDot(ar, x, y, nb, b, p, nb, 0)
  }

  lemma BlockFinished<T>(ar: Arith<T>, x: seq<T>, y: seq<T>, c0: seq<T>, c: seq<T>, nb: nat, b: nat, ib: nat, jb: nat)
    requires BlocksDone(ar, x, y, c0, nb, b, ib, jb) && BlockHolds(ar, x, y, c0, c, nb, b, ib, jb, nb)
    ensures BlocksDone(ar, x, y, c, nb, b, ib, jb + 1)
  {
    hide At;
  }

  lemma BlockRowFinished<T>(ar: Arith<T>, x: seq<T>, y: seq<T>, c: seq<T>, nb: nat, b: nat, ib: nat)
    requires BlocksDone(ar, x, y, c, nb, b, ib, nb)
    ensures BlocksDone(ar, x, y, c, nb, b, ib + 1, 0)
  {
    hide At;
  }

  /** blocked.c: the matrices, the block size, and the pointer to the current block of C. */
  class Blocked<T(0)> {
    const ar: Arith<T>
    const n: nat
    const b: nat
    const nBar: nat
    const bSqr: nat
    const A: array<T>
    const B: array<T>
    const C: array<T>
    var cp: nat

    ghost predicate Valid()
      reads this
    {
      && b > 0 && n == nBar * b && bSqr == b * b
      && A.Length == B.Length == C.Length == Cells(nBar, b)
      && A != B && A != C && B != C
    }

    constructor (ar: Arith<T>, n: nat, b: nat, A: array<T>, B: array<T>, C: array<T>)
      requires b > 0 && n % b == 0
      requires A.Length == B.Length == C.Length == n * n && A != B && A != C && B != C
      ensures Valid() && this.ar == ar && this.n == n && this.b == b
      ensures this.A == A && this.B == B && this.C == C
    {
      this.ar, this.n, this.b, this.A, this.B, this.C := ar, n, b, A, B, C;
      nBar := n / b;
      bSqr := b * b;
      cp := 0;
      new;
      assert n == nBar * b;
      CellsIsSquare(nBar, b, n);
    }

    /** Clears block (iBar, jBar) of C and makes it the current one. */
    method ZeroC(iBar: nat, jBar: nat)
      requires Valid() && iBar < nBar && jBar < nBar
      modifies this`cp, C
      ensures cp == (iBar * nBar + jBar) * bSqr
      ensures BlockHolds(ar, A[..], B[..], old(C[..]), C[..], nBar, b, iBar, jBar, 0)
    {
      hide At, Cells, BlockHolds;
      cp := (iBar * nBar + jBar) * bSqr;
      BlockCells(Place(iBar, jBar, 0, 0), nBar, b, iBar, jBar);
      MemSet(cp, bSqr);
      ZeroedBlockHolds(ar, A[..], B[..], old(C[..]), C[..], nBar, b, iBar, jBar);
    }

    /** memset on C. */
    method MemSet(first: nat, count: nat)
      requires first + count <= C.Length
      modifies C
      ensures forall u | 0 <= u < C.Length :: C[u] == if first <= u < first + count then ar.zero else old(C[u])
    {
      for t := 0 to count
        invariant forall u | 0 <= u < C.Length :: C[u] == if first <= u < first + t then ar.zero else old(C[u])
      {
        C[first + t] := ar.zero;
      }
    }

    /** Adds the product of block (iBar, kBar) of A and block (kBar, jBar) of B into the current block of C. */
    method MultAdd(iBar: nat, jBar: nat, kBar: nat, ghost c0: seq<T>)
      requires Valid() && iBar < nBar && jBar < nBar && kBar < nBar && cp == (iBar * nBar + jBar) * bSqr
      requires BlockHolds(ar, A[..], B[..], c0, C[..], nBar, b, iBar, jBar, kBar)
      modifies C
      ensures BlockHolds(ar, A[..], B[..], c0, C[..], nBar, b, iBar, jBar, kBar + 1)
    {
      hide At, Cells, BlockHolds, AddProgress;
      var ap := (iBar * nBar + kBar) * bSqr;
      var bp := (kBar * nBar + jBar) * bSqr;
      AddBegins(ar, A[..], B[..], c0, C[..], nBar, b, iBar, jBar, kBar);
      for i := 0 to b
        invariant AddProgress(ar, A[..], B[..], c0, C[..], nBar, b, iBar, jBar, kBar, i, 0, 0)
      {
        for j := 0 to b
          invariant AddProgress(ar, A[..], B[..], c0, C[..], nBar, b, iBar, jBar, kBar, i, j, 0)
        {
          for k := 0 to b
            invariant AddProgress(ar, A[..], B[..], c0, C[..], nBar, b, iBar, jBar, kBar, i, j, k)
          {
            AddOne(ar, A[..], B[..], c0, C[..], nBar, b, iBar, jBar, kBar, i, j, k);
            AtForm(Place(iBar, jBar, i, j), nBar, b);
            AtForm(Place(iBar, kBar, i, k), nBar, b);
            AtForm(Place(kBar, jBar, k, j), nBar, b);
            ghost var was := C[..];
            C[cp + i * b + j] := ar.add(C[cp + i * b + j], ar.mul(A[ap + i * b + k], B[bp + k * b + j]));
            assert C[..] == was[cp + i * b + j :=
              ar.add(was[cp + i * b + j], ar.mul(A[ap + i * b + k], B[bp + k * b + j]))];
          }
          AddNextCell(ar, A[..], B[..], c0, C[..], nBar, b, iBar, jBar, kBar, i, j);
        }
        AddNextRow(ar, A[..], B[..], c0, C[..], nBar, b, iBar, jBar, kBar, i);
      }
      AddEnds(ar, A[..], B[..], c0, C[..], nBar, b, iBar, jBar, kBar);
    }

    /** All blocks of C: every cell gets the sum of its products, block by block. */
    method BlockedMatMult()
      requires Valid()
      modifies this`cp, C
      ensures BlocksDone(ar, A[..], B[..], C[..], nBar, b, nBar, 0)
    {
      hide At, Cells, BlockHolds, BlocksDone;
      assert BlocksDone(ar, A[..], B[..], C[..], nBar, b, 0, 0) by { NothingDone(ar, A[..], B[..], C[..], nBar, b); }
      for iBar := 0 to nBar
        invariant BlocksDone(ar, A[..], B[..], C[..], nBar, b, iBar, 0)
      {
        for jBar := 0 to nBar
          invariant BlocksDone(ar, A[..], B[..], C[..], nBar, b, iBar, jBar)
        {
          ghost var c0 := C[..];
          ZeroC(iBar, jBar);
          for kBar := 0 to nBar
            invariant cp == (iBar * nBar + jBar) * bSqr
            invariant BlockHolds(ar, A[..], B[..], c0, C[..], nBar, b, iBar, jBar, kBar)
          {
            MultAdd(iBar, jBar, kBar, c0);
          }
          BlockFinished(ar, A[..], B[..], c0, C[..], nBar, b, iBar, jBar);
        }
        BlockRowFinished(ar, A[..], B[..], C[..], nBar, b, iBar);
      }
    }
  }

  // --------------------------------------------------------- the two copies

  lemma Carry(x: nat, r: nat)
    ensures Pair(x, r, r) == Pair(x + 1, 0, r)
  {
    assert x * r + r == (x + 1) * r;
  }

  /** The first `upTo` cells of `t`, by blocks, have been copied from `s`, by rows. */
  ghost predicate CopiedTo<T>(s: seq<T>, t: seq<T>, nb: nat, b: nat, upTo: nat) {
    && |s| == |t| == Cells(nb, b)
    && forall p {:trigger InMatrix(p, nb, b)} | InMatrix(p, nb, b) && At(p, nb, b) < upTo ::
         At(p, nb, b) < |t| && Row(p, nb, b) < |s| && t[At(p, nb, b)] == s[Row(p, nb, b)]
  }

  lemma CopyOneTo<T>(s: seq<T>, t: seq<T>, nb: nat, b: nat, p: Place)
    requires InMatrix(p, nb, b) && CopiedTo(s, t, nb, b, At(p, nb, b))
    ensures At(p, nb, b) < |t| && Row(p, nb, b) < |s|
    ensures CopiedTo(s, t[At(p, nb, b) := s[Row(p, nb, b)]], nb, b, At(p, nb, b) + 1)
  {
    hide At, Row;
    InRange(p, nb, b);
    forall q | InMatrix(q, nb, b) ensures At(q, nb, b) == At(p, nb, b) ==> q == p {
      Injective(q, p, nb, b);
    }
  }

  /** The first `upTo` cells of `s`, by blocks, have been copied to their places by rows in `t`. */
  ghost predicate CopiedFrom<T>(s: seq<T>, t: seq<T>, nb: nat, b: nat, upTo: nat) {
    && |s| == |t| == Cells(nb, b)
    && forall p {:trigger InMatrix(p, nb, b)} | InMatrix(p, nb, b) && At(p, nb, b) < upTo ::
         At(p, nb, b) < |s| && Row(p, nb, b) < |t| && t[Row(p, nb, b)] == s[At(p, nb, b)]
  }

  lemma CopyOneFrom<T>(s: seq<T>, t: seq<T>, nb: nat, b: nat, p: Place)
    requires InMatrix(p, nb, b) && CopiedFrom(s, t, nb, b, At(p, nb, b))
    ensures At(p, nb, b) < |s| && Row(p, nb, b) < |t|
    ensures CopiedFrom(s, t[Row(p, nb, b) := s[At(p, nb, b)]], nb, b, At(p, nb, b) + 1)
  {
    hide At, Row;
    InRange(p, nb, b);
    forall q | InMatrix(q, nb, b)
      ensures (At(q, nb, b) == At(p, nb, b) ==> q == p) && (Row(q, nb, b) == Row(p, nb, b) ==> q == p)
      ensures At(q, nb, b) < |s| && Row(q, nb, b) < |t|
    {
      Injective(q, p, nb, b);
      InRange(q, nb, b);
    }
  }

  lemma AllCopied<T>(s: seq<T>, t: seq<T>, nb: nat, b: nat)
    ensures CopiedTo(s, t, nb, b, Cells(nb, b)) ==> t == ToBlocked(s, nb, b)
    ensures CopiedFrom(s, t, nb, b, Cells(nb, b)) ==> t == FromBlocked(s, nb, b)
  {
    hide At, Row, Cells, ToBlocked, FromBlocked;
    forall p | InMatrix(p, nb, b) ensures At(p, nb, b) < Cells(nb, b) {
      InRange(p, nb, b);
    }
    if CopiedTo(s, t, nb, b, Cells(nb, b)) {
      ToBlockedPlaces(s, nb, b);
      OneMatrix(s, t, s, ToBlocked(s, nb, b), nb, b);
    }
    if CopiedFrom(s, t, nb, b, Cells(nb, b)) {
      FromBlockedPlaces(s, nb, b);
      OneMatrix(t, s, FromBlocked(s, nb, b), s, nb, b);
    }
  }

  /** Where the running pointers stand: the cell by blocks, the cell by rows, and how they move on. */
  lemma Pointers(ib: nat, jb: nat, i: nat, j: nat, nb: nat, b: nat, n: nat)
    requires n == nb * b
    ensures var p := Place(ib, jb, i, j);
      && At(Place(ib, jb, i, j + 1), nb, b) == At(p, nb, b) + 1
      && Row(Place(ib, jb, i, j + 1), nb, b) == Row(p, nb, b) + 1
      && At(Place(ib, jb, i, b), nb, b) == At(Place(ib, jb, i + 1, 0), nb, b)
      && At(Place(ib, jb, b, 0), nb, b) == At(Place(ib, jb + 1, 0, 0), nb, b)
      && At(Place(ib, nb, 0, 0), nb, b) == At(Place(ib + 1, 0, 0, 0), nb, b)
      && Row(Place(ib, jb, i + 1, 0), nb, b) == Row(Place(ib, jb, i, b), nb, b) + n - b
      && Row(Place(ib, jb, 0, 0), nb, b) == ib * b * n + jb * b
      && At(Place(0, 0, 0, 0), nb, b) == 0 && At(Place(nb, 0, 0, 0), nb, b) == Cells(nb, b)
  {
    Carry(Pair(Pair(ib, jb, nb), i, b), b);
    Carry(Pair(ib, jb, nb), b);
    Carry(ib, nb);
    RowForm(Place(ib, jb, i + 1, 0), nb, b);
    RowForm(Place(ib, jb, i, b), nb, b);
    RowForm(Place(ib, jb, 0, 0), nb, b);
    assert (ib * b + i + 1) * n == (ib * b + i) * n + n;
  }

  /** To_blocked: from rows to blocks, through a temporary. */
  method ToBlockedInPlace<T(0)>(a: array<T>, n: nat, b: nat)
    requires b > 0 && n % b == 0 && a.Length == n * n
    modifies a
    ensures Cells(n / b, b) == n * n && a[..] == ToBlocked(old(a[..]), n / b, b)
  {
    hide At, Row, Cells, CopiedTo;
    var nBar := n / b;
    assert n == nBar * b;
    CellsIsSquare(nBar, b, n);
    var temp := new T[n * n];
    var tp := 0;
    Pointers(0, 0, 0, 0, nBar, b, n);
    NothingCopied(a[..], temp[..], nBar, b);
    for iBar := 0 to nBar
      invariant tp == At(Place(iBar, 0, 0, 0), nBar, b)
      invariant a[..] == old(a[..]) && CopiedTo(a[..], temp[..], nBar, b, tp)
    {
      for jBar := 0 to nBar
        invariant tp == At(Place(iBar, jBar, 0, 0), nBar, b)
        invariant a[..] == old(a[..]) && CopiedTo(a[..], temp[..], nBar, b, tp)
      {
        var ap := iBar * b * n + jBar * b;
        Pointers(iBar, jBar, 0, 0, nBar, b, n);
        for i := 0 to b
          invariant tp == At(Place(iBar, jBar, i, 0), nBar, b) && ap == Row(Place(iBar, jBar, i, 0), nBar, b)
          invariant a[..] == old(a[..]) && CopiedTo(a[..], temp[..], nBar, b, tp)
        {
          for j := 0 to b
            invariant tp == At(Place(iBar, jBar, i, j), nBar, b) && ap == Row(Place(iBar, jBar, i, j), nBar, b)
            invariant a[..] == old(a[..]) && CopiedTo(a[..], temp[..], nBar, b, tp)
          {
            CopyOneTo(a[..], temp[..], nBar, b, Place(iBar, jBar, i, j));
            Pointers(iBar, jBar, i, j, nBar, b, n);
            ghost var was := temp[..];
            temp[tp] := a[ap];
            assert temp[..] == was[tp := a[..][ap]];
            tp := tp + 1;
            ap := ap + 1;
          }
          Pointers(iBar, jBar, i, 0, nBar, b, n);
          ap := ap + (n - b);
        }
      }
      Pointers(iBar, 0, 0, 0, nBar, b, n);
    }
    AllCopied(a[..], temp[..], nBar, b);
    forall t | 0 <= t < a.Length {
      a[t] := temp[t];
    }
    assert a[..] == temp[..];
  }

  /** From_blocked: from blocks to rows, through a temporary. */
  method FromBlockedInPlace<T(0)>(c: array<T>, n: nat, b: nat)
    requires b > 0 && n % b == 0 && c.Length == n * n
    modifies c
    ensures Cells(n / b, b) == n * n && c[..] == FromBlocked(old(c[..]), n / b, b)
  {
    hide At, Row, Cells, CopiedFrom;
    var nBar := n / b;
    assert n == nBar * b;
    CellsIsSquare(nBar, b, n);
    var temp := new T[n * n];
    var cp := 0;
    Pointers(0, 0, 0, 0, nBar, b, n);
    NothingCopied(c[..], temp[..], nBar, b);
    for iBar := 0 to nBar
      invariant cp == At(Place(iBar, 0, 0, 0), nBar, b)
      invariant c[..] == old(c[..]) && CopiedFrom(c[..], temp[..], nBar, b, cp)
    {
      for jBar := 0 to nBar
        invariant cp == At(Place(iBar, jBar, 0, 0), nBar, b)
        invariant c[..] == old(c[..]) && CopiedFrom(c[..], temp[..], nBar, b, cp)
      {
        var tp := iBar * b * n + jBar * b;
        Pointers(iBar, jBar, 0, 0, nBar, b, n);
        for i := 0 to b
          invariant cp == At(Place(iBar, jBar, i, 0), nBar, b) && tp == Row(Place(iBar, jBar, i, 0), nBar, b)
          invariant c[..] == old(c[..]) && CopiedFrom(c[..], temp[..], nBar, b, cp)
        {
          for j := 0 to b
            invariant cp == At(Place(iBar, jBar, i, j), nBar, b) && tp == Row(Place(iBar, jBar, i, j), nBar, b)
            invariant c[..] == old(c[..]) && CopiedFrom(c[..], temp[..], nBar, b, cp)
          {
            CopyOneFrom(c[..], temp[..], nBar, b, Place(iBar, jBar, i, j));
            Pointers(iBar, jBar, i, j, nBar, b, n);
            ghost var was := temp[..];
            temp[tp] := c[cp];
            assert temp[..] == was[tp := c[..][cp]];
            tp := tp + 1;
            cp := cp + 1;
          }
          Pointers(iBar, jBar, i, 0, nBar, b, n);
          tp := tp + (n - b);
        }
      }
      Pointers(iBar, 0, 0, 0, nBar, b, n);
    }
    AllCopied(c[..], temp[..], nBar, b);
    forall t | 0 <= t < c.Length {
      c[t] := temp[t];
    }
    assert c[..] == temp[..];
  }

  // ----------------------------------------------------- blocked equals naive

  /** Finished blocks of blocked factors, read back by rows, are the product of the factors by rows. */
  lemma BlocksAreProduct<T>(
      ar: Arith<T>, x: seq<T>, y: seq<T>, z: seq<T>, x': seq<T>, y': seq<T>, z': seq<T>, nb: nat, b: nat, n: nat)
    requires n == nb * b && b > 0
    requires SameMatrix(x, x', nb, b) && SameMatrix(y, y', nb, b) && SameMatrix(z, z', nb, b)
    requires BlocksDone(ar, x', y', z', nb, b, nb, 0)
    ensures IsProduct(ar, x, y, z, n)
  {
    hide At, Row, Cells, Pair;
    CellsIsSquare(nb, b, n);
    forall i: nat, j: nat | i < n && j < n
      ensures Pair(i, j, n) < n * n && z[Pair(i, j, n)] == Dot(ar, x, y, n, i, j, n)
    {
      CellBelow(i, j, n);
      PairSplits(i, nb, b);
      PairSplits(j, nb, b);
      var p := Place(Quot(i, b), Quot(j, b), Rem(i, b), Rem(j, b));
      assert InMatrix(p, nb, b);
      RowOfPlace(p, nb, b, n);
      NextTerm(nb, 0, nb, b, n);
      BlockDotIsDot(ar, x, y, x', y', nb, b, n, p, nb, 0);
    }
  }

  /** The debug build of blocked.c: block the factors, multiply, and unblock the product. C ends up as what
      the naive program computes from the same A and B, entry by entry. */
  method BlockedProduct<T(0)>(m: Blocked<T>)
    requires m.Valid()
    modifies m, m.A, m.B, m.C
    ensures IsProduct(m.ar, old(m.A[..]), old(m.B[..]), m.C[..], m.n)
  {
    hide At, Row, Cells, ToBlocked, FromBlocked, BlocksDone, IsProduct, SameMatrix;
    var n, b := m.n, m.b;
    CellsIsSquare(m.nBar, b, n);
    BlocksOf(n, b, m.nBar);
    ghost var x, y := m.A[..], m.B[..];
    ToBlockedInPlace(m.A, n, b);
    ToBlockedInPlace(m.B, n, b);
    ghost var x', y' := m.A[..], m.B[..];
    m.BlockedMatMult();
    ghost var z' := m.C[..];
    FromBlockedInPlace(m.C, n, b);
    ToBlockedPlaces(x, m.nBar, b);
    ToBlockedPlaces(y, m.nBar, b);
    FromBlockedPlaces(z', m.nBar, b);
    BlocksAreProduct(m.ar, x, y, m.C[..], x', y', z', m.nBar, b, n);
  }

  lemma BlocksOf(n: nat, b: nat, nb: nat)
    requires b > 0 && n == nb * b
    ensures n % b == 0 && n / b == nb
  {
    PairInjective(n / b, n % b, nb, 0, b);
  }

  lemma NothingCopied<T>(s: seq<T>, t: seq<T>, nb: nat, b: nat)
    requires |s| == |t| == Cells(nb, b)
    ensures CopiedTo(s, t, nb, b, 0) && CopiedFrom(s, t, nb, b, 0)
  {
  }

  lemma NothingDone<T>(ar: Arith<T>, x: seq<T>, y: seq<T>, c: seq<T>, nb: nat, b: nat)
    requires |x| == |y| == |c| == Cells(nb, b)
    ensures BlocksDone(ar, x, y, c, nb, b, 0, 0)
  {
  }
}
