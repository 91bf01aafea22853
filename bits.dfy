/** Bitwise operations of the C sources on unbounded naturals, one binary
    digit at a time, with the facts the models need about them. */
module Bits {
  import opened Util

  /** Bitwise exclusive or of two naturals, one binary digit at a time. */
  function Xor(a: nat, b: nat): (r: nat)
    decreases a + b
  {
    if a == 0 && b == 0 then 0 else 2 * Xor(a / 2, b / 2) + (a % 2 + b % 2) % 2
  }

  /** Zero is the identity of the exclusive or. */
  lemma {:induction false} XorZero(a: nat)
    ensures Xor(a, 0) == a && Xor(0, a) == a
    decreases a
  {
    if a != 0 {
      XorZero(a / 2);
    }
  }

  /** The exclusive or of two w-bit values is a w-bit value. */
  lemma {:induction false} XorBelow(a: nat, b: nat, w: nat)
    requires a < Pow2(w) && b < Pow2(w)
    ensures Xor(a, b) < Pow2(w)
    decreases w
  {
    if w > 0 && (a != 0 || b != 0) {
      XorBelow(a / 2, b / 2, w - 1);
    }
  }

  /** The exclusive or is associative, so folding pieces in one at a time
      gives the same value as folding in their combination. */
  lemma {:induction false} XorAssoc(x: nat, a: nat, b: nat)
    ensures Xor(Xor(x, a), b) == Xor(x, Xor(a, b))
    decreases x + a + b
  {
    if x != 0 || a != 0 || b != 0 {
      var xa, ab := Xor(x, a), Xor(a, b);
      XorAssoc(x / 2, a / 2, b / 2);
      XorHalves(x, a);
      XorHalves(a, b);
      XorHalves(xa, b);
      XorHalves(x, ab);
      SameDigits(Xor(xa, b), Xor(x, ab));
    }
  }

  function Bit(a: nat): (r: nat)
    ensures r < 2
  {
    a % 2
  }

  /** The high digits and the low digit of an exclusive or. */
  lemma XorHalves(a: nat, b: nat)
    ensures Xor(a, b) / 2 == Xor(a / 2, b / 2)
    ensures Bit(Xor(a, b)) == if Bit(a) == Bit(b) then 0 else 1
  {
    var c := (a % 2 + b % 2) % 2;
    assert c == if Bit(a) == Bit(b) then 0 else 1;
    if a == 0 && b == 0 {
      assert Xor(a / 2, b / 2) == 0;
    } else {
      Digit(Xor(a / 2, b / 2), c);
    }
  }

  lemma Digit(y: nat, c: nat)
    requires c < 2
    ensures (2 * y + c) / 2 == y && Bit(2 * y + c) == c
  {
  }

  lemma SameDigits(l: nat, r: nat)
    requires l / 2 == r / 2 && Bit(l) == Bit(r)
    ensures l == r
  {
  }

  /** `x & (p - 1)` for p a power of two: the low digits. */
  function Low(x: nat, p: nat): (r: nat)
    requires p > 0
    ensures r < p
  {
    x % p
  }

  /** `x >> k` for p == 2^k: the high digits. */
  function High(x: nat, p: nat): (r: nat)
    requires p > 0
    ensures x == p * r + Low(x, p)
  {
    x / p
  }

  /** Bitwise or of two naturals. */
  function Or(a: nat, b: nat): (r: nat)
    decreases a + b
  {
    if a == 0 && b == 0 then 0 else 2 * Or(a / 2, b / 2) + Max(a % 2, b % 2)
  }

  lemma Doubled(a: nat, k: nat)
    requires k > 0
    ensures a * Pow2(k) == 2 * (a * Pow2(k - 1))
    ensures Pow2(k) == 2 * Pow2(k - 1)
  {
  }

  /** Or-ing into an even number: the low digit comes from b alone. */
  lemma OrEven(half: nat, b: nat)
    ensures Or(2 * half, b) == 2 * Or(half, b / 2) + b % 2
  {
    if half != 0 || b != 0 {
      Digit(half, 0);
    }
  }

  /** Zero is the identity of the or. */
  lemma {:induction false} OrZero(a: nat)
    ensures Or(a, 0) == a
    decreases a
  {
    if a != 0 {
      OrZero(a / 2);
    }
  }

  /** Or-ing a value below 2^k into a multiple of 2^k is an addition: the
      two have no bit in common. */
  lemma {:induction false} OrDisjoint(a: nat, b: nat, k: nat)
    requires b < Pow2(k)
    ensures Or(a * Pow2(k), b) == a * Pow2(k) + b
    decreases k
  {
    if k == 0 {
      OrZero(a);
    } else if a != 0 || b != 0 {
      var p := Pow2(k - 1);
      Doubled(a, k);
      var half: nat := a * p;
      assert b / 2 < p;
      OrDisjoint(a, b / 2, k - 1);
      OrEven(half, b);
      assert b == 2 * (b / 2) + b % 2;
    }
  }
}
