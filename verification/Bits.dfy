/** The bit macros of the shared-memory allocator, on 32-bit words. The word-level laws are
    proved in short steps: the solver copes with one bit-vector operator at a time. */
module Bits {
  type Words = seq<bv32>

  // 1 << k, as a table: the solver handles symbolic shift counts badly.
  function Mask(k: nat): bv32
    requires k < 32
  {
    if k == 0 then 0x1 else if k == 1 then 0x2 else if k == 2 then 0x4 else if k == 3 then 0x8 else
    if k == 4 then 0x10 else if k == 5 then 0x20 else if k == 6 then 0x40 else if k == 7 then 0x80 else
    if k == 8 then 0x100 else if k == 9 then 0x200 else if k == 10 then 0x400 else if k == 11 then 0x800 else
    if k == 12 then 0x1000 else if k == 13 then 0x2000 else if k == 14 then 0x4000 else if k == 15 then 0x8000 else
    if k == 16 then 0x10000 else if k == 17 then 0x20000 else if k == 18 then 0x40000 else if k == 19 then 0x80000 else
    if k == 20 then 0x100000 else if k == 21 then 0x200000 else if k == 22 then 0x400000 else if k == 23 then 0x800000 else
    if k == 24 then 0x1000000 else if k == 25 then 0x2000000 else if k == 26 then 0x4000000 else if k == 27 then 0x8000000 else
    if k == 28 then 0x10000000 else if k == 29 then 0x20000000 else if k == 30 then 0x40000000 else 0x80000000
  }

  predicate Has(w: bv32, k: nat)
    requires k < 32
  {
    w & Mask(k) != 0
  }

  predicate TestBit(words: Words, k: nat)
    requires k / 32 < |words|
  {
    Has(words[k / 32], k % 32)
  }

  function SetBit(words: Words, k: nat): Words
    requires k / 32 < |words|
  {
    words[k / 32 := words[k / 32] | Mask(k % 32)]
  }

  function ClearBit(words: Words, k: nat): Words
    requires k / 32 < |words|
  {
    words[k / 32 := words[k / 32] & !Mask(k % 32)]
  }

  lemma MaskNonzero(k: nat)
    requires k < 32
    ensures Mask(k) != 0
  {
  }

  lemma MasksDisjoint(j: nat, k: nat)
    requires j < 32 && k < 32 && j != k
    ensures Mask(j) & Mask(k) == 0
  {
  }

  lemma OrDisjoint(w: bv32, m: bv32, n: bv32)
    requires m & n == 0
    ensures (w | m) & n == w & n
  {
  }

  lemma AndNotDisjoint(w: bv32, m: bv32, n: bv32)
    requires m & n == 0
    ensures (w & !m) & n == w & n
  {
  }

  lemma OrMask(w: bv32, k: nat, j: nat)
    requires k < 32 && j < 32 && Mask(k) & Mask(j) == 0
    ensures (w | Mask(k)) & Mask(j) == w & Mask(j)
  {
    OrDisjoint(w, Mask(k), Mask(j));
  }

  lemma AndNotMask(w: bv32, k: nat, j: nat)
    requires k < 32 && j < 32 && Mask(k) & Mask(j) == 0
    ensures (w & !Mask(k)) & Mask(j) == w & Mask(j)
  {
    AndNotDisjoint(w, Mask(k), Mask(j));
  }

  lemma OrHasOther(w: bv32, k: nat, j: nat)
    requires k < 32 && j < 32 && Mask(k) & Mask(j) == 0
    ensures Has(w | Mask(k), j) == Has(w, j)
  {
    OrMask(w, k, j);
  }

  lemma AndNotHasOther(w: bv32, k: nat, j: nat)
    requires k < 32 && j < 32 && Mask(k) & Mask(j) == 0
    ensures Has(w & !Mask(k), j) == Has(w, j)
  {
    AndNotMask(w, k, j);
  }

  lemma OrHasSame(w: bv32, k: nat)
    requires k < 32
    ensures Has(w | Mask(k), k)
  {
    MaskNonzero(k);
  }

  lemma AndNotHasSame(w: bv32, k: nat)
    requires k < 32
    ensures !Has(w & !Mask(k), k)
  {
  }

  /** One word: the macros change bit k and no other. */
  lemma OrHas(w: bv32, k: nat, j: nat)
    requires k < 32 && j < 32
    ensures Has(w | Mask(k), j) == (j == k || Has(w, j))
  {
    if j == k {
      OrHasSame(w, k);
    } else {
      MasksDisjoint(k, j);
      OrHasOther(w, k, j);
    }
  }

  lemma AndNotHas(w: bv32, k: nat, j: nat)
    requires k < 32 && j < 32
    ensures Has(w & !Mask(k), j) == (j != k && Has(w, j))
  {
    if j == k {
      AndNotHasSame(w, k);
    } else {
      MasksDisjoint(k, j);
      AndNotHasOther(w, k, j);
    }
  }

  /** The whole field: SetBit sets bit k and leaves every other bit alone. */
  lemma SetBitTests(words: Words, k: nat, j: nat)
    requires k / 32 < |words| && j / 32 < |words|
    ensures TestBit(SetBit(words, k), j) == (j == k || TestBit(words, j))
  {
    if j / 32 == k / 32 {
      OrHas(words[k / 32], k % 32, j % 32);
    } else {
      assert SetBit(words, k)[j / 32] == words[j / 32];
    }
  }

  /** ClearBit clears bit k and leaves every other bit alone. */
  lemma ClearBitTests(words: Words, k: nat, j: nat)
    requires k / 32 < |words| && j / 32 < |words|
    ensures TestBit(ClearBit(words, k), j) == (j != k && TestBit(words, j))
  {
    if j / 32 == k / 32 {
      AndNotHas(words[k / 32], k % 32, j % 32);
    } else {
      assert ClearBit(words, k)[j / 32] == words[j / 32];
    }
  }
}
