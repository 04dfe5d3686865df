/** 32-bit words with their bit operations, as numbers below 2^32. */
module Words {
  import opened FlatTree

  const WORD_LIMIT := 0x1_0000_0000

  type Word = w: nat | w < WORD_LIMIT

  function BitAt(w: nat, k: nat): bool
    decreases k
  {
    if k == 0 then w % 2 == 1 else BitAt(w / 2, k - 1)
  }

  function And(a: nat, b: nat): nat {
    if a == 0 then 0 else 2 * And(a / 2, b / 2) + (if a % 2 == 1 && b % 2 == 1 then 1 else 0)
  }

  function Or(a: nat, b: nat): nat {
    if a == 0 then b else 2 * Or(a / 2, b / 2) + (if a % 2 == 1 || b % 2 == 1 then 1 else 0)
  }

  /** Complement within `n` bits. */
  function Complement(a: nat, n: nat): nat
    requires a < Pow2(n)
  {
    Pow2(n) - 1 - a
  }

  lemma {:induction false} AndBit(a: nat, b: nat, k: nat)
    ensures BitAt(And(a, b), k) == (BitAt(a, k) && BitAt(b, k))
    decreases k
  {
    if a == 0 {
      ZeroBit(k);
    } else if k > 0 {
      AndBit(a / 2, b / 2, k - 1);
    }
  }

  lemma {:induction false} OrBit(a: nat, b: nat, k: nat)
    ensures BitAt(Or(a, b), k) == (BitAt(a, k) || BitAt(b, k))
    decreases k
  {
    if a == 0 {
      ZeroBit(k);
    } else if k > 0 {
      OrBit(a / 2, b / 2, k - 1);
    }
  }

  lemma {:induction false} ZeroBit(k: nat)
    ensures !BitAt(0, k)
  {
    if k > 0 {
      ZeroBit(k - 1);
    }
  }

  lemma {:induction false} ComplementBit(a: nat, n: nat, k: nat)
    requires a < Pow2(n)
    ensures k < n ==> BitAt(Complement(a, n), k) == !BitAt(a, k)
    ensures k >= n ==> !BitAt(Complement(a, n), k) && !BitAt(a, k)
    decreases k
  {
    if n == 0 {
      ZeroBit(k);
    } else if k > 0 {
      assert Complement(a, n) / 2 == Complement(a / 2, n - 1);
      ComplementBit(a / 2, n - 1, k - 1);
    }
  }

  /** A number below 2^n has no bit at or above n, and the converse. */
  lemma {:induction false} Bounded(a: nat, n: nat)
    requires forall k :: k >= n ==> !BitAt(a, k)
    ensures a < Pow2(n)
    decreases a
  {
    if a > 0 {
      if n == 0 {
        var k := TopBit(a);
        assert false;
      }
      forall k | k >= n - 1
        ensures !BitAt(a / 2, k)
      {
        assert !BitAt(a, k + 1);
      }
      Bounded(a / 2, n - 1);
    }
  }

  lemma {:induction false} TopBit(a: nat) returns (k: nat)
    requires a > 0
    ensures BitAt(a, k)
  {
    if a == 1 {
      k := 0;
    } else {
      var j := TopBit(a / 2);
      k := j + 1;
    }
  }

  lemma {:induction false} HighBits(a: nat, n: nat, k: nat)
    requires a < Pow2(n) && k >= n
    ensures !BitAt(a, k)
    decreases k
  {
    if n == 0 {
      ZeroBit(k);
    } else if k > 0 {
      HighBits(a / 2, n - 1, k - 1);
    }
  }

  /** Numbers with the same bits are the same number. */
  lemma {:induction false} Extensional(a: nat, b: nat)
    requires forall k: nat :: BitAt(a, k) == BitAt(b, k)
    ensures a == b
    decreases a + b
  {
    assert BitAt(a, 0) == BitAt(b, 0);
    if a + b > 0 {
      forall k: nat
        ensures BitAt(a / 2, k) == BitAt(b / 2, k)
      {
        assert BitAt(a, k + 1) == BitAt(b, k + 1);
      }
      Extensional(a / 2, b / 2);
    }
  }

  function ShiftLeft(a: nat, n: nat): nat
    decreases n
  {
    if n == 0 then a else 2 * ShiftLeft(a, n - 1)
  }

  /** The mask with ones at [offset, offset + power). */
  function Mask(offset: nat, power: nat): nat {
    ShiftLeft(Pow2(power) - 1, offset)
  }

  lemma {:induction false} OnesBit(power: nat, k: nat)
    ensures BitAt(Pow2(power) - 1, k) <==> k < power
    decreases k
  {
    if power == 0 {
      ZeroBit(k);
    } else if k > 0 {
      assert (Pow2(power) - 1) / 2 == Pow2(power - 1) - 1;
      OnesBit(power - 1, k - 1);
    }
  }

  lemma {:induction false} MaskBit(offset: nat, power: nat, k: nat)
    ensures BitAt(Mask(offset, power), k) <==> offset <= k < offset + power
    decreases offset
  {
    if offset == 0 {
      OnesBit(power, k);
    } else if k > 0 {
      MaskBit(offset - 1, power, k - 1);
    }
  }

  lemma {:induction false} Pow2Is(n: nat)
    ensures n == 32 ==> Pow2(n) == WORD_LIMIT
  {
    if n == 32 {
      assert Pow2(8) == 256;
      assert Pow2(16) == 65536;
      assert Pow2(24) == 0x100_0000;
    }
  }

  lemma {:induction false} MaskIsWord(offset: nat, power: nat)
    requires offset + power <= 32
    ensures Mask(offset, power) < WORD_LIMIT
  {
    forall k: nat | k >= 32
      ensures !BitAt(Mask(offset, power), k)
    {
      MaskBit(offset, power, k);
    }
    Bounded(Mask(offset, power), 32);
    Pow2Is(32);
  }

  // ---------------------------------------------------------------- one word of a range write

  ghost predicate Covers(w: nat, m: nat) {
    forall k: nat {:trigger BitAt(m, k)} :: BitAt(m, k) ==> BitAt(w, k)
  }

  ghost predicate Disjoint(w: nat, m: nat) {
    forall k: nat {:trigger BitAt(m, k)} :: BitAt(m, k) ==> !BitAt(w, k)
  }

  lemma {:induction false} AndCovers(w: nat, m: nat)
    ensures And(w, m) == m <==> Covers(w, m)
  {
    forall k: nat
      ensures BitAt(And(w, m), k) == (BitAt(w, k) && BitAt(m, k))
    {
      AndBit(w, m, k);
    }
    if Covers(w, m) {
      Extensional(And(w, m), m);
    } else {
      var k: nat :| BitAt(m, k) && !BitAt(w, k);
      assert !BitAt(And(w, m), k);
    }
  }

  lemma {:induction false} AndDisjoint(w: nat, m: nat)
    ensures And(w, m) == 0 <==> Disjoint(w, m)
  {
    forall k: nat
      ensures BitAt(And(w, m), k) == (BitAt(w, k) && BitAt(m, k))
      ensures !BitAt(0, k)
    {
      AndBit(w, m, k);
      ZeroBit(k);
    }
    if Disjoint(w, m) {
      Extensional(And(w, m), 0);
    } else {
      var k: nat :| BitAt(m, k) && BitAt(w, k);
      assert BitAt(And(w, m), k);
    }
  }

  /** Set the masked bits of a word. */
  lemma {:induction false} SetMasked(w: Word, m: Word)
    ensures Or(w, m) < WORD_LIMIT
    ensures forall k: nat :: BitAt(Or(w, m), k) == (BitAt(w, k) || BitAt(m, k))
    ensures And(w, m) == m <==> Covers(w, m)
  {
    Pow2Is(32);
    forall k: nat
      ensures BitAt(Or(w, m), k) == (BitAt(w, k) || BitAt(m, k))
    {
      OrBit(w, m, k);
    }
    forall k: nat | k >= 32
      ensures !BitAt(Or(w, m), k)
    {
      HighBits(w, 32, k);
      HighBits(m, 32, k);
    }
    Bounded(Or(w, m), 32);
    AndCovers(w, m);
  }

  /** Clear the masked bits of a word. */
  lemma {:induction false} ClearMasked(w: Word, m: Word)
    requires m < Pow2(32)
    ensures And(w, Complement(m, 32)) < WORD_LIMIT
    ensures forall k: nat :: BitAt(And(w, Complement(m, 32)), k) == (BitAt(w, k) && !BitAt(m, k))
    ensures And(w, m) == 0 <==> Disjoint(w, m)
  {
    Pow2Is(32);
    var r := And(w, Complement(m, 32));
    forall k: nat
      ensures BitAt(r, k) == (BitAt(w, k) && !BitAt(m, k))
    {
      AndBit(w, Complement(m, 32), k);
      ComplementBit(m, 32, k);
      if k >= 32 {
        HighBits(w, 32, k);
      }
    }
    forall k: nat | k >= 32
      ensures !BitAt(r, k)
    {
      HighBits(w, 32, k);
    }
    Bounded(r, 32);
    AndDisjoint(w, m);
  }
}
