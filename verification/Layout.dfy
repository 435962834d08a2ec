/** Storing an n x n matrix by rows or by b x b blocks, where n = nb * b: both are ways to number the
    places (block row, block column, row in block, column in block). */
module Layout {
  /** `x` rows of `r` items each, and `y` more. */
  function Pair(x: nat, y: nat, r: nat): nat {
    x * r + y
  }

  lemma MoreRows(x: nat, q: nat, r: nat)
    ensures x < q ==> x * r + r <= q * r
    ensures x <= q ==> x * r <= q * r
  {
    if x < q {
      assert x * r + r == (x + 1) * r <= q * r;
    }
  }

  lemma PairRange(x: nat, y: nat, q: nat, r: nat)
    requires x < q && y < r
    ensures Pair(x, y, r) < Times(q, r)
  {
    MoreRows(x, q, r);
  }

  lemma PairInjective(x: nat, y: nat, x': nat, y': nat, r: nat)
    requires y < r && y' < r && Pair(x, y, r) == Pair(x', y', r)
    ensures x == x' && y == y'
  {
    MoreRows(x, x', r);
    MoreRows(x', x, r);
  }

  function Quot(t: nat, r: nat): nat
    requires r > 0
  {
    t / r
  }

  function Rem(t: nat, r: nat): nat
    requires r > 0
  {
    t % r
  }

  function Times(q: nat, r: nat): nat {
    q * r
  }

  lemma PairSplits(t: nat, q: nat, r: nat)
    requires r > 0 && t < Times(q, r)
    ensures Quot(t, r) < q && Rem(t, r) < r && Pair(Quot(t, r), Rem(t, r), r) == t
  {
    assert t == (t / r) * r + t % r;
    MoreRows(q, t / r, r);
  }

  /** Four digits as one number. */
  function Pack(w: nat, x: nat, y: nat, z: nat, rx: nat, ry: nat, rz: nat): nat {
    Pair(Pair(Pair(w, x, rx), y, ry), z, rz)
  }

  /** How many numbers four digits make. */
  function Size(qw: nat, rx: nat, ry: nat, rz: nat): nat {
    Times(Times(Times(qw, rx), ry), rz)
  }

  lemma PackRange(w: nat, x: nat, y: nat, z: nat, qw: nat, rx: nat, ry: nat, rz: nat)
    requires w < qw && x < rx && y < ry && z < rz
    ensures Pack(w, x, y, z, rx, ry, rz) < Size(qw, rx, ry, rz)
  {
    hide Pair, Times;
    PairRange(w, x, qw, rx);
    PairRange(Pair(w, x, rx), y, Times(qw, rx), ry);
    PairRange(Pair(Pair(w, x, rx), y, ry), z, Times(Times(qw, rx), ry), rz);
  }

  lemma PackInjective(
      w: nat, x: nat, y: nat, z: nat, w': nat, x': nat, y': nat, z': nat, rx: nat, ry: nat, rz: nat)
    requires x < rx && y < ry && z < rz && x' < rx && y' < ry && z' < rz
    requires Pack(w, x, y, z, rx, ry, rz) == Pack(w', x', y', z', rx, ry, rz)
    ensures w == w' && x == x' && y == y' && z == z'
  {
    PairInjective(Pair(Pair(w, x, rx), y, ry), z, Pair(Pair(w', x', rx), y', ry), z', rz);
    PairInjective(Pair(w, x, rx), y, Pair(w', x', rx), y', ry);
    PairInjective(w, x, w', x', rx);
  }

  /** Every number in range has its four digits. */
  lemma Unpack(t: nat, qw: nat, rx: nat, ry: nat, rz: nat) returns (w: nat, x: nat, y: nat, z: nat)
    requires rx > 0 && ry > 0 && rz > 0 && t < Size(qw, rx, ry, rz)
    ensures w < qw && x < rx && y < ry && z < rz && Pack(w, x, y, z, rx, ry, rz) == t
    ensures z == Rem(t, rz) && y == Rem(Quot(t, rz), ry) && x == Rem(Quot(Quot(t, rz), ry), rx)
    ensures w == Quot(Quot(Quot(t, rz), ry), rx)
  {
    hide Pair, Times, Quot, Rem;
    var t1 := Quot(t, rz);
    var t2 := Quot(t1, ry);
    w, x, y, z := Quot(t2, rx), Rem(t2, rx), Rem(t1, ry), Rem(t, rz);
    PairSplits(t, Times(Times(qw, rx), ry), rz);
    PairSplits(t1, Times(qw, rx), ry);
    PairSplits(t2, qw, rx);
  }

  /** A place: block row and column, and row and column inside the block. */
  datatype Place = Place(bi: nat, bj: nat, i: nat, j: nat)

  predicate InMatrix(p: Place, nb: nat, b: nat) {
    p.bi < nb && p.bj < nb && p.i < b && p.j < b
  }

  /** Where a place is stored by blocks. */
  function At(p: Place, nb: nat, b: nat): nat {
    Pack(p.bi, p.bj, p.i, p.j, nb, b, b)
  }

  /** Where a place is stored by rows. */
  function Row(p: Place, nb: nat, b: nat): nat {
    Pack(p.bi, p.i, p.bj, p.j, b, nb, b)
  }

  function Cells(nb: nat, b: nat): nat {
    Size(nb, nb, b, b)
  }

  lemma CellsIsSquare(nb: nat, b: nat, n: nat)
    requires n == nb * b
    ensures Cells(nb, b) == n * n
    ensures Size(nb, b, nb, b) == Cells(nb, b)
  {
    assert n * n == (nb * b) * (nb * b) == nb * (b * (nb * b)) == nb * (nb * b * b) == nb * nb * b * b;
    assert nb * b * nb * b == n * nb * b == n * (nb * b);
  }

  lemma NonEmpty(nb: nat, b: nat)
    requires Cells(nb, b) > 0
    ensures nb > 0 && b > 0
  {
  }

  lemma InRange(p: Place, nb: nat, b: nat)
    requires InMatrix(p, nb, b)
    ensures At(p, nb, b) < Cells(nb, b) && Row(p, nb, b) < Cells(nb, b)
  {
    hide Pack;
    PackRange(p.bi, p.bj, p.i, p.j, nb, nb, b, b);
    PackRange(p.bi, p.i, p.bj, p.j, nb, b, nb, b);
    CellsIsSquare(nb, b, nb * b);
  }

  /** Different places are stored apart, in either layout. */
  lemma Injective(p: Place, q: Place, nb: nat, b: nat)
    requires InMatrix(p, nb, b) && InMatrix(q, nb, b)
    ensures At(p, nb, b) == At(q, nb, b) ==> p == q
    ensures Row(p, nb, b) == Row(q, nb, b) ==> p == q
  {
    hide Pack;
    if At(p, nb, b) == At(q, nb, b) {
      PackInjective(p.bi, p.bj, p.i, p.j, q.bi, q.bj, q.i, q.j, nb, b, b);
    }
    if Row(p, nb, b) == Row(q, nb, b) {
      PackInjective(p.bi, p.i, p.bj, p.j, q.bi, q.i, q.bj, q.j, b, nb, b);
    }
  }

  /** The place stored at cell `t` by blocks. */
  function PlaceAt(t: nat, nb: nat, b: nat): (p: Place)
    requires t < Cells(nb, b)
  {
    NonEmpty(nb, b);
    var t1 := Quot(t, b);
    var t2 := Quot(t1, b);
    Place(Quot(t2, nb), Rem(t2, nb), Rem(t1, b), Rem(t, b))
  }

  lemma PlaceAtIsAt(t: nat, nb: nat, b: nat)
    requires t < Cells(nb, b)
    ensures InMatrix(PlaceAt(t, nb, b), nb, b) && At(PlaceAt(t, nb, b), nb, b) == t
  {
    hide Pack, Times, Quot, Rem;
    NonEmpty(nb, b);
    var w, x, y, z := Unpack(t, nb, nb, b, b);
  }

  /** The place stored at cell `t` by rows. */
  function PlaceInRow(t: nat, nb: nat, b: nat): (p: Place)
    requires t < Cells(nb, b)
  {
    NonEmpty(nb, b);
    var t1 := Quot(t, b);
    var t2 := Quot(t1, nb);
    Place(Quot(t2, b), Rem(t1, nb), Rem(t2, b), Rem(t, b))
  }

  lemma PlaceInRowIsRow(t: nat, nb: nat, b: nat)
    requires t < Cells(nb, b)
    ensures InMatrix(PlaceInRow(t, nb, b), nb, b) && Row(PlaceInRow(t, nb, b), nb, b) == t
  {
    hide Pack, Times, Quot, Rem;
    NonEmpty(nb, b);
    CellsIsSquare(nb, b, nb * b);
    var w, x, y, z := Unpack(t, nb, b, nb, b);
  }

  /** The two layouts in closed form: row-major index `r * n + c` against the block formula. */
  lemma ClosedForm(r: nat, c: nat, nb: nat, b: nat, n: nat)
    requires b > 0 && n == nb * b && r < n && c < n
    ensures var p := Place(r / b, c / b, r % b, c % b);
      && InMatrix(p, nb, b)
      && Row(p, nb, b) == r * n + c
      && At(p, nb, b) == ((r / b) * nb + c / b) * (b * b) + (r % b) * b + c % b
  {
    var p := Place(r / b, c / b, r % b, c % b);
    PairSplits(r, nb, b);
    PairSplits(c, nb, b);
    RowForm(p, nb, b);
    AtForm(p, nb, b);
  }

  lemma AtForm(p: Place, nb: nat, b: nat)
    ensures At(p, nb, b) == (p.bi * nb + p.bj) * (b * b) + p.i * b + p.j
  {
    var x := p.bi * nb + p.bj;
    assert (x * b + p.i) * b == x * b * b + p.i * b;
    assert x * b * b == x * (b * b);
  }

  lemma RowForm(p: Place, nb: nat, b: nat)
    ensures Row(p, nb, b) == (p.bi * b + p.i) * (nb * b) + p.bj * b + p.j
  {
    var x := p.bi * b + p.i;
    assert (x * nb + p.bj) * b == x * nb * b + p.bj * b;
    assert x * nb * b == x * (nb * b);
  }

  // ------------------------------------------------------- the two copies

  /** `r`, by blocks, holds what `s` holds by rows. */
  ghost predicate SameMatrix<T>(s: seq<T>, r: seq<T>, nb: nat, b: nat) {
    && |s| == |r| == Cells(nb, b)
    && forall p {:trigger InMatrix(p, nb, b)} | InMatrix(p, nb, b) ::
         At(p, nb, b) < |r| && Row(p, nb, b) < |s| && r[At(p, nb, b)] == s[Row(p, nb, b)]
  }

  /** What To_blocked makes of a matrix stored by rows. */
  function ToBlocked<T>(s: seq<T>, nb: nat, b: nat): (r: seq<T>)
    requires |s| == Cells(nb, b)
    ensures |r| == |s|
  {
    seq(|s|, t requires 0 <= t < |s| =>
      PlaceAtIsAt(t, nb, b); InRange(PlaceAt(t, nb, b), nb, b); s[Row(PlaceAt(t, nb, b), nb, b)])
  }

  /** What From_blocked makes of a matrix stored by blocks. */
  function FromBlocked<T>(s: seq<T>, nb: nat, b: nat): (r: seq<T>)
    requires |s| == Cells(nb, b)
    ensures |r| == |s|
  {
    seq(|s|, t requires 0 <= t < |s| =>
      PlaceInRowIsRow(t, nb, b); InRange(PlaceInRow(t, nb, b), nb, b); s[At(PlaceInRow(t, nb, b), nb, b)])
  }

  lemma ToBlockedPlaces<T>(s: seq<T>, nb: nat, b: nat)
    requires |s| == Cells(nb, b)
    ensures SameMatrix(s, ToBlocked(s, nb, b), nb, b)
  {
    hide At, Row, PlaceAt;
    var r := ToBlocked(s, nb, b);
    forall p | InMatrix(p, nb, b)
      ensures At(p, nb, b) < |s| && Row(p, nb, b) < |s| && r[At(p, nb, b)] == s[Row(p, nb, b)]
    {
      InRange(p, nb, b);
      PlaceAtIsAt(At(p, nb, b), nb, b);
      Injective(p, PlaceAt(At(p, nb, b), nb, b), nb, b);
    }
  }

  lemma FromBlockedPlaces<T>(s: seq<T>, nb: nat, b: nat)
    requires |s| == Cells(nb, b)
    ensures SameMatrix(FromBlocked(s, nb, b), s, nb, b)
  {
    hide At, Row, PlaceInRow;
    var r := FromBlocked(s, nb, b);
    forall p | InMatrix(p, nb, b)
      ensures At(p, nb, b) < |s| && Row(p, nb, b) < |s| && s[At(p, nb, b)] == r[Row(p, nb, b)]
    {
      InRange(p, nb, b);
      PlaceInRowIsRow(Row(p, nb, b), nb, b);
      Injective(p, PlaceInRow(Row(p, nb, b), nb, b), nb, b);
    }
  }

  /** A matrix by blocks has one form by rows, and the other way round. */
  lemma OneMatrix<T>(s: seq<T>, r: seq<T>, s': seq<T>, r': seq<T>, nb: nat, b: nat)
    requires SameMatrix(s, r, nb, b) && SameMatrix(s', r', nb, b)
    ensures s == s' <==> r == r'
  {
    hide At, Row, PlaceAt, PlaceInRow;
    if s == s' {
      forall t | 0 <= t < |r| ensures r[t] == r'[t] {
        PlaceAtIsAt(t, nb, b);
      }
    }
    if r == r' {
      forall t | 0 <= t < |s| ensures s[t] == s'[t] {
        PlaceInRowIsRow(t, nb, b);
      }
    }
  }

  /** The two copies undo each other: they are mutually inverse permutations of the cells. */
  lemma BlockedRoundTrip<T>(s: seq<T>, nb: nat, b: nat)
    requires |s| == Cells(nb, b)
    ensures FromBlocked(ToBlocked(s, nb, b), nb, b) == s
    ensures ToBlocked(FromBlocked(s, nb, b), nb, b) == s
  {
    ToBlockedPlaces(s, nb, b);
    FromBlockedPlaces(ToBlocked(s, nb, b), nb, b);
    OneMatrix(s, ToBlocked(s, nb, b), FromBlocked(ToBlocked(s, nb, b), nb, b), ToBlocked(s, nb, b), nb, b);
    FromBlockedPlaces(s, nb, b);
    ToBlockedPlaces(FromBlocked(s, nb, b), nb, b);
    OneMatrix(FromBlocked(s, nb, b), s, FromBlocked(s, nb, b), ToBlocked(FromBlocked(s, nb, b), nb, b), nb, b);
  }
}
