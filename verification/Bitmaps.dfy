/** The swap-slot allocator: a packed array of 32-bit words that stands for a
    finite set of slot numbers. */
module Bitmaps {
  import opened Options
  import opened Words

  const BITS_PER_WORD := 32

  const WORD_ALLBITS: nat := 0xffff_ffff

  /** The word test the allocator skips full words by is exact. */
  lemma FullWord(w: nat)
    requires w < WORD_LIMIT
    ensures w == WORD_ALLBITS <==> forall k: nat | k < BITS_PER_WORD :: Bit(w, k)
  {
    WordLimitIsMask();
    AllBits(w, BITS_PER_WORD);
  }

  /** Bit `k` of a packed sequence of words. */
  predicate PackedBit(s: seq<nat>, k: nat)
    requires k < |s| * BITS_PER_WORD
  {
    Bit(s[k / BITS_PER_WORD], k % BITS_PER_WORD)
  }

  predicate AreWords(s: seq<nat>) {
    forall w | 0 <= w < |s| :: s[w] < WORD_LIMIT
  }

  /** Or-ing a mask into the word of bit `i` sets that bit and no other. */
  lemma PackedSet(s: seq<nat>, i: nat, t: seq<nat>)
    requires AreWords(s) && i < |s| * BITS_PER_WORD
    requires t == s[i / BITS_PER_WORD := Or(s[i / BITS_PER_WORD], Mask(i % BITS_PER_WORD))]
    ensures AreWords(t)
    ensures forall k: nat | k < |s| * BITS_PER_WORD :: PackedBit(t, k) <==> k == i || PackedBit(s, k)
  {
    var w, j := s[i / BITS_PER_WORD], i % BITS_PER_WORD;
    WordLimitIsMask();
    MaskBelow(j, 32);
    OrBelow(w, Mask(j), 32);
    forall k: nat | k < |s| * BITS_PER_WORD
      ensures PackedBit(t, k) <==> k == i || PackedBit(s, k)
    {
      SetsBit(w, j, k % BITS_PER_WORD);
    }
  }

  /** And-ing with the complement of a mask clears that bit and no other. */
  lemma PackedClear(s: seq<nat>, i: nat, t: seq<nat>)
    requires AreWords(s) && i < |s| * BITS_PER_WORD
    requires Mask(i % BITS_PER_WORD) < WORD_LIMIT
    requires t == s[i / BITS_PER_WORD := And(s[i / BITS_PER_WORD], Not(Mask(i % BITS_PER_WORD)))]
    ensures AreWords(t)
    ensures forall k: nat | k < |s| * BITS_PER_WORD :: PackedBit(t, k) <==> k != i && PackedBit(s, k)
  {
    var w, j := s[i / BITS_PER_WORD], i % BITS_PER_WORD;
    AndBelow(w, Not(Mask(j)));
    forall k: nat | k < |s| * BITS_PER_WORD
      ensures PackedBit(t, k) <==> k != i && PackedBit(s, k)
    {
      ClearsBit(w, j, k % BITS_PER_WORD);
    }
  }

  lemma FullWordBit(w: nat, k: nat)
    requires w == WORD_ALLBITS && k < BITS_PER_WORD
    ensures Bit(w, k)
  {
    FullWord(w);
  }

  // ------------------------------------------------------- abstract slots

  /** The lowest slot of `k..n` that is not taken. */
  function FirstFree(taken: set<nat>, k: nat, n: nat): (r: Option<nat>)
    requires k <= n
    ensures r.Some? ==> k <= r.value < n && r.value !in taken && forall j | k <= j < r.value :: j in taken
    ensures r.None? ==> forall j | k <= j < n :: j in taken
    decreases n - k
  {
    if k == n then None else if k !in taken then Some(k) else FirstFree(taken, k + 1, n)
  }

  // ------------------------------------------------------------ the class

  function DivRoundUp(a: nat, b: nat): nat
    requires b > 0
  {
    (a + b - 1) / b
  }

  class Bitmap {
    const nbits: nat
    const v: array<nat>

    /** The word count is exact and every leftover bit is marked in use. */
    ghost predicate Valid()
      reads v
    {
      && v.Length == DivRoundUp(nbits, BITS_PER_WORD)
      && AreWords(v[..])
      && forall k: nat | nbits <= k < v.Length * BITS_PER_WORD :: PackedBit(v[..], k)
    }

    /** The set of slots the words stand for. */
    ghost function Marked(): set<nat>
      requires Valid()
      reads v
    {
      set k: nat | k < nbits && PackedBit(v[..], k)
    }

    constructor (nbits: nat)
      ensures Valid() && fresh(v)
      ensures this.nbits == nbits && Marked() == {}
    {
      var words := DivRoundUp(nbits, BITS_PER_WORD);
      this.nbits := nbits;
      this.v := new nat[words](_ => 0);
      new;
      forall k: nat ensures !Bit(0, k) {
        BitOfZero(k);
      }
      // The last word may reach past nbits; what it has there must never be handed out.
      if words > nbits / BITS_PER_WORD {
        var ix := words - 1;
        var overbits := nbits - ix * BITS_PER_WORD;
        assert nbits / BITS_PER_WORD == words - 1;
        assert 0 < overbits < BITS_PER_WORD;
        for j := overbits to BITS_PER_WORD
          invariant AreWords(v[..])
          invariant forall k: nat | k < v.Length * BITS_PER_WORD ::
              PackedBit(v[..], k) <==> nbits <= k < ix * BITS_PER_WORD + j
        {
          ghost var was, bit := v[..], ix * BITS_PER_WORD + j;
          assert bit / BITS_PER_WORD == ix && bit % BITS_PER_WORD == j;
          v[ix] := Or(v[ix], Mask(j));
          PackedSet(was, bit, v[..]);
        }
      }
    }

    /** Takes the lowest free slot; fails exactly when every slot is taken. */
    method Alloc() returns (index: Option<nat>)
      requires Valid()
      modifies v
      ensures Valid()
      ensures index == FirstFree(old(Marked()), 0, nbits)
      ensures Marked() == old(Marked()) + (if index.Some? then {index.value} else {})
      ensures index.None? <==> forall k: nat | k < nbits :: k in old(Marked())
    {
      var maxix := DivRoundUp(nbits, BITS_PER_WORD);
      for ix := 0 to maxix
        invariant forall k: nat | k < ix * BITS_PER_WORD :: PackedBit(v[..], k)
        invariant v[..] == old(v[..])
      {
        FullWord(v[ix]);
        if v[ix] != WORD_ALLBITS {
          for offset := 0 to BITS_PER_WORD
            invariant forall k: nat | k < offset :: Bit(v[ix], k)
            invariant v[..] == old(v[..])
          {
            var mask := Mask(offset);
            TestsBit(v[ix], offset);
            if And(v[ix], mask) == 0 {
              var found := ix * BITS_PER_WORD + offset;
              assert found / BITS_PER_WORD == ix && found % BITS_PER_WORD == offset;
              forall k: nat | k < found ensures PackedBit(v[..], k) {
                if k >= ix * BITS_PER_WORD {
                  assert k / BITS_PER_WORD == ix && k % BITS_PER_WORD < offset;
                }
              }
              assert !PackedBit(v[..], found);
              assert found < nbits;
              assert found !in Marked() && forall k: nat | k < found :: k in Marked();
              v[ix] := Or(v[ix], mask);
              PackedSet(old(v[..]), found, v[..]);
              index := Some(found);
              return;
            }
          }
          assert false;
        } else {
          forall k: nat | k < (ix + 1) * BITS_PER_WORD ensures PackedBit(v[..], k) {
            if k >= ix * BITS_PER_WORD {
              FullWordBit(v[ix], k % BITS_PER_WORD);
            }
          }
        }
      }
      index := None;
    }

    method Mark(index: nat)
      requires Valid() && index < nbits && index !in Marked()
      modifies v
      ensures Valid() && Marked() == old(Marked()) + {index}
    {
      var ix, mask := Translate(index);
      TestsBit(v[ix], index % BITS_PER_WORD);
      assert And(v[ix], mask) == 0;
      v[ix] := Or(v[ix], mask);
      PackedSet(old(v[..]), index, v[..]);
    }

    method Unmark(index: nat)
      requires Valid() && index < nbits && index in Marked()
      modifies v
      ensures Valid() && Marked() == old(Marked()) - {index}
    {
      var ix, mask := Translate(index);
      TestsBit(v[ix], index % BITS_PER_WORD);
      assert And(v[ix], mask) != 0;
      v[ix] := And(v[ix], Not(mask));
      PackedClear(old(v[..]), index, v[..]);
    }

    method IsMarked(index: nat) returns (r: nat)
      requires Valid() && index < v.Length * BITS_PER_WORD
      ensures r != 0 <==> index >= nbits || index in Marked()
    {
      var ix, mask := Translate(index);
      TestsBit(v[ix], index % BITS_PER_WORD);
      assert PackedBit(v[..], index) <==> Bit(v[ix], index % BITS_PER_WORD);
      r := And(v[ix], mask);
    }

    static method Translate(bitno: nat) returns (ix: nat, mask: nat)
      ensures ix == bitno / BITS_PER_WORD && mask == Mask(bitno % BITS_PER_WORD)
      ensures mask < WORD_LIMIT
    {
      ix := bitno / BITS_PER_WORD;
      var offset := bitno % BITS_PER_WORD;
      mask := Mask(offset);
      MaskBelow(offset, 32);
      WordLimitIsMask();
    }
  }
}
