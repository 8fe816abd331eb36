/** 64-bit words as sets of bits, and two of them as the set of taken task tags (iscsi/session.rs, IttPool). */
module Bits {
  import opened Bytes

  // -- Words as numbers ------------------------------------------------------

  function Pow2(n: nat): (r: nat)
    ensures r > 0
  {
    if n == 0 then 1 else 2 * Pow2(n - 1)
  }

  type word = u64

  /** Bit `i` of `x`, counted from the low end. */
  predicate Bit(x: nat, i: nat) {
    if i == 0 then x % 2 == 1 else Bit(x / 2, i - 1)
  }

  function And(x: nat, y: nat): nat {
    if x == 0 then 0 else 2 * And(x / 2, y / 2) + (x % 2) * (y % 2)
  }

  function Or(x: nat, y: nat): nat
    decreases x + y
  {
    if x == 0 then y else if y == 0 then x else 2 * Or(x / 2, y / 2) + Max(x % 2, y % 2)
  }

  /** The complement of `x` in `w` bits. */
  function Not(x: nat, w: nat): (r: nat)
    requires x < Pow2(w)
    ensures r == Pow2(w) - 1 - x
  {
    if w == 0 then 0 else 2 * Not(x / 2, w - 1) + (1 - x % 2)
  }

  lemma {:induction false} BitOfAnd(x: nat, y: nat, i: nat)
    ensures Bit(And(x, y), i) <==> Bit(x, i) && Bit(y, i)
  {
    if x == 0 {
      BitOfZero(i);
    } else {
      assert And(x, y) / 2 == And(x / 2, y / 2);
      if i > 0 {
        BitOfAnd(x / 2, y / 2, i - 1);
      }
    }
  }

  lemma {:induction false} BitOfOr(x: nat, y: nat, i: nat)
    ensures Bit(Or(x, y), i) <==> Bit(x, i) || Bit(y, i)
    decreases i
  {
    if x == 0 || y == 0 {
      BitOfZero(i);
    } else {
      assert Or(x, y) / 2 == Or(x / 2, y / 2);
      if i > 0 {
        BitOfOr(x / 2, y / 2, i - 1);
      }
    }
  }

  lemma {:induction false} BitOfNot(x: nat, w: nat, i: nat)
    requires x < Pow2(w) && i < w
    ensures Bit(Not(x, w), i) <==> !Bit(x, i)
  {
    assert Not(x, w) / 2 == Not(x / 2, w - 1);
    if i > 0 {
      BitOfNot(x / 2, w - 1, i - 1);
    }
  }

  lemma {:induction false} BitOfZero(i: nat)
    ensures !Bit(0, i)
  {
    if i > 0 {
      BitOfZero(i - 1);
    }
  }

  lemma {:induction false} BitOfPow2(n: nat, i: nat)
    ensures Bit(Pow2(n), i) <==> i == n
  {
    if i > 0 && n > 0 {
      BitOfPow2(n - 1, i - 1);
    } else if n == 0 && i > 0 {
      BitOfZero(i - 1);
    }
  }

  lemma {:induction false} OrBelow(x: nat, y: nat, w: nat)
    requires x < Pow2(w) && y < Pow2(w)
    ensures Or(x, y) < Pow2(w)
  {
    if x != 0 && y != 0 {
      OrBelow(x / 2, y / 2, w - 1);
    }
  }

  lemma {:induction false} AndBelow(x: nat, y: nat)
    ensures And(x, y) <= x
  {
    if x != 0 {
      AndBelow(x / 2, y / 2);
    }
  }

  lemma {:induction false} Pow2Grows(i: nat, w: nat)
    requires i < w
    ensures Pow2(i) < Pow2(w)
  {
    if i < w - 1 {
      Pow2Grows(i, w - 1);
    }
  }

  lemma HalfWidth()
    ensures Pow2(32) == 0x1_0000_0000
  {
    assert Pow2(8) == 0x100;
    Pow2Sum(8, 8);
    Pow2Sum(16, 16);
  }

  lemma WordWidth()
    ensures Pow2(64) == 0x1_0000_0000_0000_0000
  {
    HalfWidth();
    Pow2Sum(32, 32);
  }

  lemma {:induction false} Pow2Sum(m: nat, n: nat)
    ensures Pow2(m + n) == Pow2(m) * Pow2(n)
  {
    if m > 0 {
      Pow2Sum(m - 1, n);
    }
  }

  /** A number below 2^w that is not zero has a set bit below `w`. */
  lemma {:induction false} SomeBit(x: nat, w: nat) returns (i: nat)
    requires 0 < x < Pow2(w)
    ensures i < w && Bit(x, i)
  {
    if x % 2 == 1 {
      i := 0;
    } else {
      i := SomeBit(x / 2, w - 1);
      i := i + 1;
    }
  }

  // -- The machine operations the pool uses ----------------------------------

  /** `1 << i` */
  function Mask(i: nat): (m: word)
    requires i < 64
  {
    Pow2Grows(i, 64);
    WordWidth();
    Pow2(i)
  }

  /** `x | m` */
  function SetBit(x: word, i: nat): (r: word)
    requires i < 64
  {
    WordWidth();
    OrBelow(x, Mask(i), 64);
    Or(x, Mask(i))
  }

  /** `!x` */
  function Complement(x: word): word {
    WordWidth();
    Not(x, 64)
  }

  /** `x & !m` */
  function ClearBit(x: word, i: nat): word
    requires i < 64
  {
    AndBelow(x, Complement(Mask(i)));
    And(x, Complement(Mask(i)))
  }

  /** `x & (x - 1)` */
  function DropLowest(x: word): word
    requires x > 0
  {
    AndBelow(x, x - 1);
    And(x, x - 1)
  }

  /** The position of the lowest set bit. */
  function LowestBit(x: nat): (r: nat)
    requires x > 0
    ensures Bit(x, r) && forall j :: 0 <= j < r ==> !Bit(x, j)
  {
    if x % 2 == 1 then 0 else LowestBit(x / 2) + 1
  }

  /** A number below 2^w has no set bit at or above `w`. */
  lemma {:induction false} BitsBelow(x: nat, w: nat, i: nat)
    requires x < Pow2(w) && Bit(x, i)
    ensures i < w
    decreases w
  {
    if w == 0 {
      BitOfZero(i);
    } else if i > 0 {
      BitsBelow(x / 2, w - 1, i - 1);
    }
  }

  function TrailingZeros(x: word): (r: nat)
    ensures r <= 64
    ensures r < 64 ==> Bit(x, r)
    ensures forall j :: 0 <= j < r ==> !Bit(x, j)
  {
    if x == 0 then
      NoBitInZero();
      64
    else
      WordWidth();
      BitsBelow(x, 64, LowestBit(x));
      LowestBit(x)
  }

  lemma NoBitInZero()
    ensures forall j: nat :: !Bit(0, j)
  {
    forall j: nat
      ensures !Bit(0, j)
    {
      BitOfZero(j);
    }
  }

  ghost function BitsOf(x: word): (s: set<nat>)
    ensures forall i :: i in s <==> 0 <= i < 64 && Bit(x, i)
  {
    set i: nat | i < 64 && Bit(x, i)
  }

  lemma BitsOfSet(x: word, i: nat)
    requires i < 64
    ensures BitsOf(SetBit(x, i)) == BitsOf(x) + {i}
  {
    forall j: nat | j < 64
      ensures Bit(SetBit(x, i), j) <==> i == j || Bit(x, j)
    {
      BitOfOr(x, Mask(i), j);
      BitOfPow2(i, j);
    }
  }

  lemma BitsOfClear(x: word, i: nat)
    requires i < 64
    ensures BitsOf(ClearBit(x, i)) == BitsOf(x) - {i}
  {
    WordWidth();
    forall j: nat | j < 64
      ensures Bit(ClearBit(x, i), j) <==> i != j && Bit(x, j)
    {
      BitOfAnd(x, Complement(Mask(i)), j);
      BitOfNot(Mask(i), 64, j);
      BitOfPow2(i, j);
    }
  }

  /** A word is zero exactly when it has no set bit. */
  lemma NoBits(x: word)
    ensures x == 0 <==> BitsOf(x) == {}
  {
    if x == 0 {
      forall i: nat | i < 64
        ensures !Bit(x, i)
      {
        BitOfZero(i);
      }
    } else {
      WordWidth();
      var i := SomeBit(x, 64);
      assert i in BitsOf(x);
    }
  }

  /** Below the lowest set bit `x - 1` has ones, at it a zero, above it the bits of `x`. */
  lemma {:induction false} BitOfLess(x: nat, t: nat, i: nat)
    requires Bit(x, t) && forall j :: 0 <= j < t ==> !Bit(x, j)
    ensures x > 0 && (Bit(x - 1, i) <==> i < t || (i > t && Bit(x, i)))
    decreases i
  {
    if x == 0 {
      BitOfZero(t);
    }
    if t == 0 {
      assert (x - 1) / 2 == x / 2;
    } else {
      assert !Bit(x, 0);
      assert (x - 1) / 2 == x / 2 - 1;
      if i > 0 {
        forall j | 0 <= j < t - 1
          ensures !Bit(x / 2, j)
        {
          assert !Bit(x, j + 1);
        }
        BitOfLess(x / 2, t - 1, i - 1);
      }
    }
  }

  /** `x & (x - 1)` clears exactly the lowest set bit. */
  lemma BitsOfDropLowest(x: word)
    requires x > 0
    ensures TrailingZeros(x) < 64
    ensures BitsOf(DropLowest(x)) == BitsOf(x) - {TrailingZeros(x)}
  {
    WordWidth();
    var some := SomeBit(x, 64);
    var t := TrailingZeros(x);
    forall i: nat | i < 64
      ensures Bit(DropLowest(x), i) <==> i != t && Bit(x, i)
    {
      BitOfAnd(x, x - 1, i);
      BitOfLess(x, t, i);
    }
  }

  /** The lowest zero of a word is the lowest one of its complement. */
  lemma LowestFree(x: word)
    ensures var b := TrailingZeros(Complement(x));
      && (b < 64 ==> b !in BitsOf(x))
      && (forall j :: 0 <= j < b ==> j in BitsOf(x))
  {
    WordWidth();
    forall j: nat | j < 64
      ensures Bit(Complement(x), j) <==> !Bit(x, j)
    {
      BitOfNot(x, 64, j);
    }
  }

  /** Peels set bits off the bottom; every turn removes one, so the loop ends after as many turns as bits. */
  method SetBits(x: word) returns (result: seq<nat>)
    ensures forall i, j :: 0 <= i < j < |result| ==> result[i] < result[j]
    ensures forall i :: i in result <==> i in BitsOf(x)
    ensures |result| == |BitsOf(x)|
  {
    result := [];
    var bits := x;
    NoBits(x);
    while bits != 0
      invariant forall i, j :: 0 <= i < j < |result| ==> result[i] < result[j]
      invariant forall i, b :: 0 <= i < |result| && b in BitsOf(bits) ==> result[i] < b
      invariant forall i :: i in BitsOf(x) <==> i in result || i in BitsOf(bits)
      invariant |result| + |BitsOf(bits)| == |BitsOf(x)|
      decreases |BitsOf(bits)|
    {
      BitsOfDropLowest(bits);
      var bit := TrailingZeros(bits);
      assert bit in BitsOf(bits);
      result := result + [bit];
      bits := DropLowest(bits);
    }
    NoBits(bits);
  }

  // -- Two words as tags -----------------------------------------------------

  /** The tags taken according to the two words. */
  ghost function Taken(lo: word, hi: word): (s: set<nat>)
    ensures forall t :: t in s <==> (0 <= t < 64 && t in BitsOf(lo)) || (64 <= t < 128 && t - 64 in BitsOf(hi))
  {
    set t: nat | t < 128 && if t < 64 then t in BitsOf(lo) else t - 64 in BitsOf(hi)
  }

  /** The lowest free tag of the first word, if it has one. */
  lemma LowestInLo(lo: word, hi: word, b: nat)
    requires b == TrailingZeros(Complement(lo)) && b < 64
    ensures b !in Taken(lo, hi) && forall t :: 0 <= t < b ==> t in Taken(lo, hi)
    ensures Taken(SetBit(lo, b), hi) == Taken(lo, hi) + {b}
  {
    LowestFree(lo);
    BitsOfSet(lo, b);
  }

  lemma LoFull(lo: word, hi: word)
    requires TrailingZeros(Complement(lo)) >= 64
    ensures forall t :: 0 <= t < 64 ==> t in Taken(lo, hi)
  {
    LowestFree(lo);
  }

  /** The lowest free tag of the second word. */
  lemma LowestInHi(lo: word, hi: word, b: nat)
    requires b == TrailingZeros(Complement(hi)) && b < 64
    ensures 64 + b !in Taken(lo, hi) && forall t :: 64 <= t < 64 + b ==> t in Taken(lo, hi)
    ensures Taken(lo, SetBit(hi, b)) == Taken(lo, hi) + {64 + b}
  {
    LowestFree(hi);
    BitsOfSet(hi, b);
    forall t | 64 <= t < 64 + b
      ensures t in Taken(lo, hi)
    {
      assert t - 64 in BitsOf(hi);
    }
  }

  lemma HiFull(lo: word, hi: word)
    requires TrailingZeros(Complement(hi)) >= 64
    ensures forall t :: 64 <= t < 128 ==> t in Taken(lo, hi)
  {
    LowestFree(hi);
    forall t | 64 <= t < 128
      ensures t in Taken(lo, hi)
    {
      assert t - 64 in BitsOf(hi);
    }
  }

  /** All tags below `n` are taken. */
  ghost predicate AllBelow(tags: set<nat>, n: nat) {
    forall t: nat :: t < n ==> t in tags
  }

  /** The lowest tag that is not taken, 128 if there is none. */
  ghost predicate IsLowest(tags: set<nat>, itt: nat) {
    itt <= 128 && AllBelow(tags, itt) && (itt < 128 ==> itt !in tags)
  }

  /** What the two words' trailing zeros come to. */
  lemma LowestTag(lo: word, hi: word)
    ensures var a, b := TrailingZeros(Complement(lo)), TrailingZeros(Complement(hi));
      IsLowest(Taken(lo, hi), if a < 64 then a else if b < 64 then 64 + b else 128)
  {
    var a, b := TrailingZeros(Complement(lo)), TrailingZeros(Complement(hi));
    if a < 64 {
      LowestInLo(lo, hi, a);
    } else {
      LoFull(lo, hi);
      if b < 64 {
        LowestInHi(lo, hi, b);
      } else {
        HiFull(lo, hi);
      }
    }
  }
}
