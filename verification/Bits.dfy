/** Bitwise operations on unsigned words, given meaning bit by bit. */
module Bits {
  function Bit(x: nat, k: nat): bool {
    if k == 0 then x % 2 == 1 else Bit(x / 2, k - 1)
  }

  function And(x: nat, y: nat): (r: nat)
    ensures r <= x && r <= y
  {
    if x == 0 || y == 0 then 0
    else 2 * And(x / 2, y / 2) + (if x % 2 == 1 && y % 2 == 1 then 1 else 0)
  }

  function Or(x: nat, y: nat): nat {
    if x == 0 then y else if y == 0 then x
    else 2 * Or(x / 2, y / 2) + (if x % 2 == 1 || y % 2 == 1 then 1 else 0)
  }

  /** `x & !y` */
  function AndNot(x: nat, y: nat): (r: nat)
    ensures r <= x
  {
    if x == 0 then 0
    else 2 * AndNot(x / 2, y / 2) + (if x % 2 == 1 && y % 2 == 0 then 1 else 0)
  }

  predicate Subset(x: nat, y: nat) {
    AndNot(x, y) == 0
  }

  lemma {:induction false} ZeroHasNoBits(k: nat)
    ensures !Bit(0, k)
  {
    if k > 0 { ZeroHasNoBits(k - 1); }
  }

  lemma {:induction false} AndBit(x: nat, y: nat, k: nat)
    ensures Bit(And(x, y), k) <==> Bit(x, k) && Bit(y, k)
  {
    if x == 0 || y == 0 {
      ZeroHasNoBits(k);
    } else if k > 0 {
      AndBit(x / 2, y / 2, k - 1);
    }
  }

  lemma {:induction false} OrBit(x: nat, y: nat, k: nat)
    ensures Bit(Or(x, y), k) <==> Bit(x, k) || Bit(y, k)
  {
    if x == 0 || y == 0 {
      ZeroHasNoBits(k);
    } else if k > 0 {
      OrBit(x / 2, y / 2, k - 1);
    }
  }

  lemma {:induction false} SubsetBit(x: nat, y: nat, k: nat)
    requires Subset(x, y) && Bit(x, k)
    ensures Bit(y, k)
  {
    if x == 0 {
      ZeroHasNoBits(k);
    } else if k > 0 {
      SubsetBit(x / 2, y / 2, k - 1);
    }
  }

  lemma {:induction false} MissingBit(x: nat, y: nat) returns (k: nat)
    requires !Subset(x, y)
    ensures Bit(x, k) && !Bit(y, k)
  {
    if x % 2 == 1 && y % 2 == 0 {
      k := 0;
    } else {
      k := MissingBit(x / 2, y / 2);
      k := k + 1;
    }
  }

  /** A word is a subset of another exactly when each of its bits is set there. */
  lemma SubsetByBits(x: nat, y: nat)
    ensures Subset(x, y) <==> forall k: nat :: Bit(x, k) ==> Bit(y, k)
  {
    if Subset(x, y) {
      forall k: nat | Bit(x, k) ensures Bit(y, k) { SubsetBit(x, y, k); }
    } else {
      var k := MissingBit(x, y);
    }
  }

  lemma SubsetOfAnd(x: nat, y: nat, z: nat)
    ensures Subset(x, And(y, z)) <==> Subset(x, y) && Subset(x, z)
  {
    SubsetByBits(x, And(y, z));
    SubsetByBits(x, y);
    SubsetByBits(x, z);
    forall k: nat ensures Bit(And(y, z), k) <==> Bit(y, k) && Bit(z, k) { AndBit(y, z, k); }
  }

  lemma OrSubset(x: nat, y: nat, z: nat)
    ensures Subset(Or(x, y), z) <==> Subset(x, z) && Subset(y, z)
  {
    SubsetByBits(Or(x, y), z);
    SubsetByBits(x, z);
    SubsetByBits(y, z);
    forall k: nat ensures Bit(Or(x, y), k) <==> Bit(x, k) || Bit(y, k) { OrBit(x, y, k); }
  }

  predicate IsPowerOfTwo(x: nat) {
    x == 1 || (x > 1 && x % 2 == 0 && IsPowerOfTwo(x / 2))
  }
}
