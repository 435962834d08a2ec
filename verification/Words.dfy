/** Unsigned machine words as natural numbers: the C operators `&`, `|`, `~` and
    `1 << k`, and what they do to the binary digits of a word. */
module Words {
  const WORD_LIMIT: nat := 0x1_0000_0000

  /** `w >> n`. */
  function Shr(w: nat, n: nat): nat {
    if n == 0 then w else Shr(w / 2, n - 1)
  }

  /** The `k`-th binary digit. */
  predicate Bit(w: nat, k: nat) {
    Shr(w, k) % 2 == 1
  }

  function And(a: nat, b: nat): nat {
    if a == 0 then 0 else 2 * And(a / 2, b / 2) + (if a % 2 == 1 && b % 2 == 1 then 1 else 0)
  }

  function Or(a: nat, b: nat): nat {
    if a == 0 then b else 2 * Or(a / 2, b / 2) + (if a % 2 == 1 || b % 2 == 1 then 1 else 0)
  }

  /** `~w` on 32 bits. */
  function Not(w: nat): nat
    requires w < WORD_LIMIT
  {
    WORD_LIMIT - 1 - w
  }

  /** `1 << k`. */
  function Mask(k: nat): (m: nat)
    ensures m > 0
  {
    if k == 0 then 1 else 2 * Mask(k - 1)
  }

  lemma {:induction false} BitOfZero(k: nat)
    ensures !Bit(0, k)
  {
    if k > 0 {
      BitOfZero(k - 1);
    }
  }

  lemma AndDigits(a: nat, b: nat)
    ensures And(a, b) / 2 == And(a / 2, b / 2)
    ensures And(a, b) % 2 == 1 <==> a % 2 == 1 && b % 2 == 1
  {
  }

  lemma {:induction false} BitOfAnd(a: nat, b: nat, k: nat)
    ensures Bit(And(a, b), k) <==> Bit(a, k) && Bit(b, k)
  {
    hide And;
    AndDigits(a, b);
    if k > 0 {
      BitOfAnd(a / 2, b / 2, k - 1);
    }
  }

  lemma OrDigits(a: nat, b: nat)
    ensures Or(a, b) / 2 == Or(a / 2, b / 2)
    ensures Or(a, b) % 2 == 1 <==> a % 2 == 1 || b % 2 == 1
  {
  }

  lemma {:induction false} BitOfOr(a: nat, b: nat, k: nat)
    ensures Bit(Or(a, b), k) <==> Bit(a, k) || Bit(b, k)
  {
    hide Or;
    OrDigits(a, b);
    if k > 0 {
      BitOfOr(a / 2, b / 2, k - 1);
    }
  }

  lemma {:induction false} BitOfMask(j: nat, k: nat)
    ensures Bit(Mask(j), k) <==> j == k
  {
    if j == 0 {
      if k > 0 {
        BitOfZero(k - 1);
      }
    } else if k > 0 {
      BitOfMask(j - 1, k - 1);
    }
  }

  lemma {:induction false} BitOfComplement(w: nat, n: nat, k: nat)
    requires w < Mask(n) && k < n
    ensures Bit(Mask(n) - 1 - w, k) <==> !Bit(w, k)
  {
    if k > 0 {
      assert (Mask(n) - 1 - w) / 2 == Mask(n - 1) - 1 - w / 2;
      BitOfComplement(w / 2, n - 1, k - 1);
    }
  }

  lemma WordLimitIsMask()
    ensures Mask(32) == WORD_LIMIT
  {
    assert Mask(4) == 0x10 && Mask(8) == 0x100 && Mask(12) == 0x1000 && Mask(16) == 0x1_0000;
    assert Mask(20) == 0x10_0000 && Mask(24) == 0x100_0000 && Mask(28) == 0x1000_0000;
  }

  lemma BitOfNot(w: nat, k: nat)
    requires w < WORD_LIMIT && k < 32
    ensures Bit(Not(w), k) <==> !Bit(w, k)
  {
    WordLimitIsMask();
    BitOfComplement(w, 32, k);
  }

  lemma {:induction false} HighBitsClear(w: nat, n: nat, k: nat)
    requires w < Mask(n) && n <= k
    ensures !Bit(w, k)
  {
    if n == 0 {
      BitOfZero(k);
    } else {
      HighBitsClear(w / 2, n - 1, k - 1);
    }
  }

  /** Words with the same digits are the same word. */
  lemma {:induction false} SameBits(a: nat, b: nat)
    requires forall k: nat :: Bit(a, k) <==> Bit(b, k)
    ensures a == b
    decreases a + b
  {
    if a + b > 0 {
      forall k: nat ensures Bit(a / 2, k) <==> Bit(b / 2, k) {
        assert Bit(a, k + 1) <==> Bit(b, k + 1);
      }
      SameBits(a / 2, b / 2);
      assert Bit(a, 0) <==> Bit(b, 0);
    }
  }

  /** `w & (1 << k)` tests digit `k`. */
  lemma TestsBit(w: nat, k: nat)
    ensures And(w, Mask(k)) != 0 <==> Bit(w, k)
  {
    BitOfAnd(w, Mask(k), k);
    BitOfMask(k, k);
    BitOfZero(k);
    if !Bit(w, k) {
      forall j: nat ensures Bit(And(w, Mask(k)), j) <==> Bit(0, j) {
        BitOfAnd(w, Mask(k), j);
        BitOfMask(k, j);
        BitOfZero(j);
      }
      SameBits(And(w, Mask(k)), 0);
    }
  }

  /** `w | (1 << j)` sets digit `j` and no other. */
  lemma SetsBit(w: nat, j: nat, k: nat)
    ensures Bit(Or(w, Mask(j)), k) <==> j == k || Bit(w, k)
  {
    BitOfOr(w, Mask(j), k);
    BitOfMask(j, k);
  }

  /** `w & ~(1 << j)` clears digit `j` and no other. */
  lemma ClearsBit(w: nat, j: nat, k: nat)
    requires w < WORD_LIMIT && j < 32
    ensures Mask(j) < WORD_LIMIT
    ensures Bit(And(w, Not(Mask(j))), k) <==> j != k && Bit(w, k)
  {
    MaskBelow(j, 32);
    WordLimitIsMask();
    BitOfAnd(w, Not(Mask(j)), k);
    if k < 32 {
      BitOfNot(Mask(j), k);
      BitOfMask(j, k);
    } else {
      HighBitsClear(w, 32, k);
    }
  }

  lemma {:induction false} MaskBelow(j: nat, n: nat)
    requires j < n
    ensures Mask(j) < Mask(n)
  {
    if j + 1 < n {
      MaskBelow(j, n - 1);
    }
  }

  lemma {:induction false} AndBelow(a: nat, b: nat)
    ensures And(a, b) <= a
  {
    if a > 0 {
      AndBelow(a / 2, b / 2);
    }
  }

  lemma {:induction false} OrBelow(a: nat, b: nat, n: nat)
    requires a < Mask(n) && b < Mask(n)
    ensures Or(a, b) < Mask(n)
  {
    if n > 0 && a > 0 {
      OrBelow(a / 2, b / 2, n - 1);
    }
  }

  /** A word below `1 << n` with all of its `n` digits set is the largest one. */
  lemma AllBits(w: nat, n: nat)
    requires w < Mask(n)
    ensures w == Mask(n) - 1 <==> forall k: nat | k < n :: Bit(w, k)
  {
    var top: nat := Mask(n) - 1;
    forall k: nat | k < n ensures Bit(top, k) {
      BitOfComplement(0, n, k);
      BitOfZero(k);
    }
    if forall k: nat | k < n :: Bit(w, k) {
      forall k: nat ensures Bit(w, k) <==> Bit(top, k) {
        if n <= k {
          HighBitsClear(w, n, k);
          HighBitsClear(top, n, k);
        }
      }
      SameBits(w, top);
    }
  }
}
