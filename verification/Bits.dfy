/** The bit operators of C++ on unsigned numbers, and what masks and disjoint unions mean. */
module Bits {

  function Shl(x: nat, k: nat): nat {
    if k == 0 then x else 2 * Shl(x, k - 1)
  }

  function Shr(x: nat, k: nat): nat {
    if k == 0 then x else Shr(x / 2, k - 1)
  }

  function And(x: nat, y: nat): nat {
    if x == 0 || y == 0 then 0
    else 2 * And(x / 2, y / 2) + if x % 2 == 1 && y % 2 == 1 then 1 else 0
  }

  function Or(x: nat, y: nat): nat {
    if x == 0 then y
    else if y == 0 then x
    else 2 * Or(x / 2, y / 2) + if x % 2 == 1 || y % 2 == 1 then 1 else 0
  }

  /** The number whose low `k` bits are set. */
  function Ones(k: nat): nat {
    if k == 0 then 0 else 2 * Ones(k - 1) + 1
  }

  /** The low `k` bits of `x`. */
  function Low(x: nat, k: nat): nat {
    if k == 0 then 0 else 2 * Low(x / 2, k - 1) + x % 2
  }

  lemma {:induction false} AndOnes(x: nat, k: nat)
    ensures And(x, Ones(k)) == Low(x, k)
  {
    if k == 0 {
    } else {
      AndOnes(x / 2, k - 1);
      assert Ones(k) / 2 == Ones(k - 1);
    }
  }

  /** `x & (y << k)`. */
  lemma {:induction false} AndShifted(x: nat, y: nat, k: nat)
    ensures And(x, Shl(y, k)) == Shl(And(Shr(x, k), y), k)
  {
    if k == 0 {
    } else {
      AndShifted(x / 2, y, k - 1);
      assert Shl(y, k) / 2 == Shl(y, k - 1);
      assert Shl(And(Shr(x, k), y), k) == 2 * Shl(And(Shr(x, k), y), k - 1);
    }
  }

  /** `(x << k) | y` where the bits do not overlap. */
  lemma {:induction false} OrDisjoint(x: nat, y: nat, k: nat)
    requires y < Shl(1, k)
    ensures Or(Shl(x, k), y) == Shl(x, k) + y
  {
    if k == 0 {
    } else {
      OrDisjoint(x, y / 2, k - 1);
      assert Shl(x, k) / 2 == Shl(x, k - 1);
    }
  }

  lemma {:induction false} ShrSum(x: nat, j: nat, k: nat)
    ensures Shr(x, j + k) == Shr(Shr(x, j), k)
  {
    if j > 0 {
      ShrSum(x / 2, j - 1, k);
    }
  }

  lemma {:induction false} ShlSum(x: nat, j: nat, k: nat)
    ensures Shl(x, j + k) == Shl(Shl(x, j), k)
  {
    if k > 0 {
      ShlSum(x, j, k - 1);
    }
  }

  lemma {:induction false} LowSum(x: nat, j: nat, k: nat)
    ensures Low(x, j + k) == Low(x, j) + Shl(Low(Shr(x, j), k), j)
  {
    if j > 0 {
      LowSum(x / 2, j - 1, k);
    }
  }

  // Shifts and masks by the widths that occur in the timing descriptor, as arithmetic.

  lemma Two(x: nat)
    ensures Shl(x, 2) == 4 * x && Shr(x, 2) == x / 4 && Low(x, 2) == x % 4
  {
    assert Shl(x, 1) == 2 * Shl(x, 0);
    assert Shr(x / 2, 1) == Shr(x / 2 / 2, 0) == x / 4;
    assert Low(x / 2, 1) == 2 * Low(x / 2 / 2, 0) + x / 2 % 2;
  }

  lemma Four(x: nat)
    ensures Shl(x, 4) == 16 * x && Shr(x, 4) == x / 16 && Low(x, 4) == x % 16
  {
    hide Shl, Shr, Low;
    ShlSum(x, 2, 2);
    ShrSum(x, 2, 2);
    LowSum(x, 2, 2);
    Two(x);
    Two(4 * x);
    Two(x / 4);
    Two(x / 4 % 4);
  }

  lemma Six(x: nat)
    ensures Shl(x, 6) == 64 * x
  {
    hide Shl;
    ShlSum(x, 4, 2);
    Four(x);
    Two(16 * x);
  }

  lemma Eight(x: nat)
    ensures Shl(x, 8) == 256 * x && Shr(x, 8) == x / 256 && Low(x, 8) == x % 256
  {
    hide Shl, Shr, Low;
    ShlSum(x, 4, 4);
    ShrSum(x, 4, 4);
    LowSum(x, 4, 4);
    Four(x);
    Four(16 * x);
    Four(x / 16);
    Four(x / 16 % 16);
  }

  lemma Masks()
    ensures Ones(2) == 3 && Ones(4) == 0x0F && Ones(8) == 0xFF
    ensures Shl(3, 4) == 0x30 && Shl(3, 8) == 0x300 && Shl(0x0F, 4) == 0xF0 && Shl(0x0F, 8) == 0x0F00
  {
    Four(3);
    Four(15);
    Eight(3);
    Eight(15);
    assert Ones(4) == 2 * Ones(3) + 1 && Ones(3) == 7;
    assert Ones(6) == 2 * Ones(5) + 1 && Ones(5) == 2 * Ones(4) + 1;
    assert Ones(8) == 2 * Ones(7) + 1 && Ones(7) == 2 * Ones(6) + 1;
  }

  /** Masks over the low bits. */
  lemma LowMasks(x: nat)
    ensures And(x, 0x0F) == x % 16 && And(x, 0xFF) == x % 256
  {
    hide And, Low, Shl, Shr, Ones;
    Masks();
    AndOnes(x, 4);
    AndOnes(x, 8);
    Four(x);
    Eight(x);
  }

  /** Masks over bits in the middle. */
  lemma MiddleMasks(x: nat)
    ensures And(x, 0x30) == 16 * (x / 16 % 4) && And(x, 0xF0) == 16 * (x / 16 % 16)
    ensures And(x, 0x300) == 256 * (x / 256 % 4) && And(x, 0x0F00) == 256 * (x / 256 % 16)
  {
    hide And, Low, Shl, Shr, Ones;
    Masks();
    AndShifted(x, 3, 4);
    AndShifted(x, 15, 4);
    AndShifted(x, 3, 8);
    AndShifted(x, 15, 8);
    Four(x);
    Eight(x);
    AndOnes(x / 16, 2);
    AndOnes(x / 16, 4);
    AndOnes(x / 256, 2);
    AndOnes(x / 256, 4);
    Two(x / 16);
    Four(x / 16);
    Two(x / 256);
    Four(x / 256);
    Four(x / 16 % 4);
    Four(x / 16 % 16);
    Eight(x / 256 % 4);
    Eight(x / 256 % 16);
  }

  /** Unions of bits that do not overlap are sums. */
  lemma Unions(x: nat, y: nat)
    ensures y < 4 ==> Or(4 * x, y) == 4 * x + y
    ensures y < 16 ==> Or(16 * x, y) == 16 * x + y
    ensures y < 64 ==> Or(64 * x, y) == 64 * x + y
    ensures y < 256 ==> Or(256 * x, y) == 256 * x + y
  {
    hide Or, Shl;
    Six(x);
    Six(1);
    if y < 64 {
      OrDisjoint(x, y, 6);
    }
    Two(x);
    Two(1);
    Four(x);
    Four(1);
    Eight(x);
    Eight(1);
    if y < 4 {
      OrDisjoint(x, y, 2);
    }
    if y < 16 {
      OrDisjoint(x, y, 4);
    }
    if y < 256 {
      OrDisjoint(x, y, 8);
    }
  }

  lemma {:induction false} OrCommutes(x: nat, y: nat)
    ensures Or(x, y) == Or(y, x)
  {
    if x > 0 && y > 0 {
      OrCommutes(x / 2, y / 2);
    }
  }
}
