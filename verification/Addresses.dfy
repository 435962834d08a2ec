/** Virtual addresses and page-table entry words (pagetable.h). */
module Addresses {
  import opened Words

  const PAGE_SIZE: nat := 0x1000
  const PGDIR_SPAN: nat := 0x100_0000
  const PTRS_PER_PGDIR: nat := 4096
  const PTRS_PER_PGTBL: nat := 4096
  const PAGES: nat := 0x100_0000
  const ADDRESS_LIMIT: nat := 0x10_0000_0000
  const INVALID_SWAP := -1

  const PG_VALID: nat := 0x1
  const PG_DIRTY: nat := 0x2
  const PG_REF: nat := 0x4
  const PG_ONSWAP: nat := 0x8

  /** `vaddr >> PGDIR_SHIFT`. */
  function DirIndex(vaddr: nat): nat {
    vaddr / PGDIR_SPAN
  }

  /** `(vaddr >> PAGE_SHIFT) & PGTBL_MASK`. */
  function TblIndex(vaddr: nat): nat {
    (vaddr / PAGE_SIZE) % PTRS_PER_PGTBL
  }

  /** The page an address lies on. */
  function PageOf(vaddr: nat): nat {
    vaddr / PAGE_SIZE
  }

  /** The two indices name the page: they stay inside their tables, they can be
      put together again, and two addresses share them exactly when they lie in the same block of
      4096 bytes. */
  lemma IndicesNameThePage(x: nat, y: nat)
    requires x < ADDRESS_LIMIT && y < ADDRESS_LIMIT
    ensures DirIndex(x) < PTRS_PER_PGDIR && TblIndex(x) < PTRS_PER_PGTBL && PageOf(x) < PAGES
    ensures DirIndex(x) * PTRS_PER_PGTBL + TblIndex(x) == PageOf(x)
    ensures DirIndex(x) == DirIndex(y) && TblIndex(x) == TblIndex(y) <==> PageOf(x) == PageOf(y)
    ensures PageOf(x) == PageOf(y) <==> x / 4096 == y / 4096
  {
  }

  /** Among page-aligned addresses the two indices even name the address. */
  lemma AlignedIndicesNameTheAddress(x: nat, y: nat)
    requires x < ADDRESS_LIMIT && y < ADDRESS_LIMIT
    requires x % PAGE_SIZE == 0 && y % PAGE_SIZE == 0
    ensures DirIndex(x) == DirIndex(y) && TblIndex(x) == TblIndex(y) <==> x == y
  {
    IndicesNameThePage(x, y);
    assert x == PageOf(x) * PAGE_SIZE && y == PageOf(y) * PAGE_SIZE;
  }

  // ---------------------------------------------------- entry words

  predicate HasFlag(w: nat, flag: nat) {
    And(w, flag) != 0
  }

  predicate IsFlag(flag: nat) {
    flag == PG_VALID || flag == PG_DIRTY || flag == PG_REF || flag == PG_ONSWAP
  }

  /** `w >> PAGE_SHIFT`. */
  function FrameOf(w: nat): nat {
    w / PAGE_SIZE
  }

  /** What a packed entry says. */
  datatype Entry = Entry(frame: nat, valid: bool, dirty: bool, ref: bool, onSwap: bool, swapOff: int)

  const FRESH := Entry(0, false, false, false, false, INVALID_SWAP)

  /** The packed form the code stores: one word and the swap offset. */
  datatype Pte = Pte(word: nat, swapOff: int)

  function Decode(e: Pte): Entry {
    Entry(FrameOf(e.word), HasFlag(e.word, PG_VALID), HasFlag(e.word, PG_DIRTY),
          HasFlag(e.word, PG_REF), HasFlag(e.word, PG_ONSWAP), e.swapOff)
  }

  lemma FlagIsDigit(w: nat, flag: nat) returns (k: nat)
    requires IsFlag(flag)
    ensures k < 4 && flag == Mask(k)
    ensures HasFlag(w, flag) <==> Bit(w, k)
  {
    assert Mask(1) == 2 && Mask(2) == 4 && Mask(3) == 8;
    k := if flag == PG_VALID then 0 else if flag == PG_DIRTY then 1 else if flag == PG_REF then 2 else 3;
    TestsBit(w, k);
  }

  lemma {:induction false} OrWithZero(w: nat)
    ensures Or(w, 0) == w
  {
    if w > 0 {
      OrWithZero(w / 2);
    }
  }

  lemma {:induction false} ShrOfOr(a: nat, b: nat, n: nat)
    ensures Shr(Or(a, b), n) == Or(Shr(a, n), Shr(b, n))
  {
    if n > 0 {
      assert Or(a, b) / 2 == Or(a / 2, b / 2);
      ShrOfOr(a / 2, b / 2, n - 1);
    }
  }

  lemma {:induction false} ShrOfAnd(a: nat, b: nat, n: nat)
    ensures Shr(And(a, b), n) == And(Shr(a, n), Shr(b, n))
  {
    if n > 0 {
      assert And(a, b) / 2 == And(a / 2, b / 2);
      ShrOfAnd(a / 2, b / 2, n - 1);
    }
  }

  lemma ShrFour(w: nat)
    ensures Shr(w, 4) == w / 16
  {
    assert Shr(w, 4) == Shr(w / 2, 3) == Shr(w / 2 / 2, 2) == Shr(w / 2 / 2 / 2, 1);
  }

  lemma SameFrame(a: nat, b: nat)
    requires a / 16 == b / 16
    ensures FrameOf(a) == FrameOf(b)
  {
    assert FrameOf(a) == a / 16 / 256 && FrameOf(b) == b / 16 / 256;
  }

  lemma OrKeepsFrame(w: nat, flag: nat)
    requires flag < 16
    ensures FrameOf(Or(w, flag)) == FrameOf(w)
  {
    ShrOfOr(w, flag, 4);
    ShrFour(w);
    ShrFour(flag);
    ShrFour(Or(w, flag));
    OrWithZero(w / 16);
    SameFrame(Or(w, flag), w);
  }

  lemma OnesDigits(w: nat, n: nat)
    requires 0 < w < Mask(n)
    ensures n > 0 && w / 2 < Mask(n - 1)
    ensures (Mask(n) - 1) / 2 == Mask(n - 1) - 1 && (Mask(n) - 1) % 2 == 1
  {
    assert n > 0 ==> Mask(n) == 2 * Mask(n - 1);
  }

  lemma {:induction false} AndWithOnes(w: nat, n: nat)
    requires w < Mask(n)
    ensures And(w, Mask(n) - 1) == w
  {
    hide And, Mask;
    if w == 0 {
      AndBelow(w, Mask(n) - 1);
    } else {
      OnesDigits(w, n);
      AndDigits(w, Mask(n) - 1);
      AndWithOnes(w / 2, n - 1);
    }
  }

  lemma ClearKeepsFrame(w: nat, flag: nat)
    requires w < WORD_LIMIT && flag < 16
    ensures FrameOf(And(w, Not(flag))) == FrameOf(w)
  {
    var ones := Not(flag);
    ShrOfAnd(w, ones, 4);
    ShrFour(w);
    ShrFour(ones);
    ShrFour(And(w, ones));
    assert Mask(7) == 0x80 && Mask(14) == 0x4000 && Mask(21) == 0x20_0000;
    assert Mask(28) == 0x1000_0000 && ones / 16 == Mask(28) - 1;
    AndWithOnes(w / 16, 28);
    SameFrame(And(w, ones), w);
  }

  lemma OrStaysWord(w: nat, flag: nat)
    requires w < WORD_LIMIT && IsFlag(flag)
    ensures Or(w, flag) < WORD_LIMIT
  {
    WordLimitIsMask();
    OrBelow(w, flag, 32);
  }

  /** Setting a flag sets that flag and keeps the others. */
  lemma SetFlag(w: nat, flag: nat, other: nat)
    requires IsFlag(flag) && IsFlag(other)
    ensures HasFlag(Or(w, flag), other) <==> other == flag || HasFlag(w, other)
  {
    var j := FlagIsDigit(w, flag);
    var k := FlagIsDigit(w, other);
    k := FlagIsDigit(Or(w, flag), other);
    SetsBit(w, j, k);
  }

  /** Clearing a flag clears that flag and keeps the others. */
  lemma ClearFlag(w: nat, flag: nat, other: nat)
    requires w < WORD_LIMIT && IsFlag(flag) && IsFlag(other)
    ensures HasFlag(And(w, Not(flag)), other) <==> other != flag && HasFlag(w, other)
  {
    var j := FlagIsDigit(w, flag);
    var k := FlagIsDigit(w, other);
    k := FlagIsDigit(And(w, Not(flag)), other);
    ClearsBit(w, j, k);
  }

  lemma DoubleDigit(m: nat, k: nat)
    ensures Bit(2 * m, k) <==> k > 0 && Bit(m, k - 1)
  {
    assert 2 * m / 2 == m;
  }

  lemma NoLowDigits(m: nat, k: nat)
    requires k < 4
    ensures !Bit(16 * m, k)
  {
    hide Bit;
    DoubleDigit(8 * m, k);
    if k > 0 {
      DoubleDigit(4 * m, k - 1);
    }
    if k > 1 {
      DoubleDigit(2 * m, k - 2);
    }
    if k > 2 {
      DoubleDigit(m, k - 3);
    }
  }

  lemma FlagClear(w: nat, flag: nat)
    requires w % 16 == 0 && IsFlag(flag)
    ensures !HasFlag(w, flag)
  {
    hide HasFlag, Bit;
    var k := FlagIsDigit(w, flag);
    NoLowDigits(w / 16, k);
    assert 16 * (w / 16) == w;
  }

  /** `iFrame << PAGE_SHIFT` holds the frame number and no flag at all. */
  lemma FrameWord(w: nat, frame: nat, off: int)
    requires w == frame * PAGE_SIZE
    ensures Decode(Pte(w, off)) == Entry(frame, false, false, false, false, off)
  {
    hide HasFlag;
    assert FrameOf(w) == frame && w % 16 == 0;
    FlagClear(w, PG_VALID);
    FlagClear(w, PG_DIRTY);
    FlagClear(w, PG_REF);
    FlagClear(w, PG_ONSWAP);
  }

  /** The entry with one flag set or cleared. */
  function WithFlag(e: Entry, flag: nat, on: bool): Entry {
    if flag == PG_VALID then e.(valid := on)
    else if flag == PG_DIRTY then e.(dirty := on)
    else if flag == PG_REF then e.(ref := on)
    else if flag == PG_ONSWAP then e.(onSwap := on)
    else e
  }

  /** One flag of an entry. */
  function FlagOf(e: Entry, flag: nat): bool {
    if flag == PG_VALID then e.valid
    else if flag == PG_DIRTY then e.dirty
    else if flag == PG_REF then e.ref
    else e.onSwap
  }

  /** `word |= flag` in a packed entry. */
  lemma DecodeSet(e: Pte, flag: nat)
    requires e.word < WORD_LIMIT && IsFlag(flag)
    ensures Or(e.word, flag) < WORD_LIMIT
    ensures Decode(e.(word := Or(e.word, flag))) == WithFlag(Decode(e), flag, true)
  {
    hide HasFlag, FrameOf;
    OrStaysWord(e.word, flag);
    OrKeepsFrame(e.word, flag);
    SetFlag(e.word, flag, PG_VALID);
    SetFlag(e.word, flag, PG_DIRTY);
    SetFlag(e.word, flag, PG_REF);
    SetFlag(e.word, flag, PG_ONSWAP);
  }

  /** `word &= ~flag` in a packed entry. */
  lemma DecodeClear(e: Pte, flag: nat)
    requires e.word < WORD_LIMIT && IsFlag(flag)
    ensures And(e.word, Not(flag)) < WORD_LIMIT
    ensures Decode(e.(word := And(e.word, Not(flag)))) == WithFlag(Decode(e), flag, false)
  {
    hide HasFlag, FrameOf;
    AndBelow(e.word, Not(flag));
    ClearKeepsFrame(e.word, flag);
    ClearFlag(e.word, flag, PG_VALID);
    ClearFlag(e.word, flag, PG_DIRTY);
    ClearFlag(e.word, flag, PG_REF);
    ClearFlag(e.word, flag, PG_ONSWAP);
  }

  /** What init_second_level writes into every entry. */
  const NEW_PTE := Pte(0, INVALID_SWAP)

  lemma NewPteIsFresh()
    ensures Decode(NEW_PTE) == FRESH
  {
    FrameWord(0, 0, INVALID_SWAP);
  }
}
