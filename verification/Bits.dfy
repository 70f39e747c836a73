/** Bitwise operations on unsigned integers, by their binary digits. */
module Bits {
  import opened Arith

  /** `a | b`. */
  function Or(a: nat, b: nat): (r: nat) {
    if a == 0 then b
    else if b == 0 then a
    else 2 * Or(a / 2, b / 2) + (if a % 2 == 1 || b % 2 == 1 then 1 else 0)
  }

  /** `a >> k`. */
  function Shr(a: nat, k: nat): (r: nat) {
    if k == 0 then a else Shr(a / 2, k - 1)
  }

  function Pow2(k: nat): (p: nat)
    ensures p > 0
  {
    if k == 0 then 1 else 2 * Pow2(k - 1)
  }

  function Pow256(n: nat): (p: nat)
    ensures p > 0
  {
    if n == 0 then 1 else 256 * Pow256(n - 1)
  }

  lemma {:induction false} Pow256Of4And8()
    ensures Pow256(4) == 0x1_0000_0000 && Pow256(8) == 0x1_0000_0000_0000_0000
  {
    assert Pow256(2) == 0x1_0000;
    assert Pow256(4) == 0x1_0000 * Pow256(2);
    assert Pow256(6) == 0x1_0000 * Pow256(4);
  }

  lemma {:induction false} OrHalf(a: nat, b: nat)
    ensures Or(a, b) / 2 == Or(a / 2, b / 2)
    ensures Or(a, b) % 2 == if a % 2 == 1 || b % 2 == 1 then 1 else 0
  {
  }

  /** Shifting distributes over `|`. */
  lemma {:induction false} OrShr(a: nat, b: nat, k: nat)
    ensures Shr(Or(a, b), k) == Or(Shr(a, k), Shr(b, k))
  {
    if k > 0 {
      OrHalf(a, b);
      OrShr(a / 2, b / 2, k - 1);
    }
  }

  lemma {:induction false} OrBound(a: nat, b: nat, k: nat)
    requires a < Pow2(k) && b < Pow2(k)
    ensures Or(a, b) < Pow2(k)
  {
    if k > 0 && a != 0 && b != 0 {
      OrBound(a / 2, b / 2, k - 1);
    }
  }

  lemma {:induction false} ShrFour(a: nat, k: nat)
    ensures Shr(a, k + 4) == Shr(a / 16, k)
  {
    assert Shr(a, k + 4) == Shr(a / 2, k + 3);
    assert Shr(a / 2, k + 3) == Shr(a / 4, k + 2);
    assert Shr(a / 4, k + 2) == Shr(a / 8, k + 1);
    assert Shr(a / 8, k + 1) == Shr(a / 16, k);
  }

  lemma {:induction false} Shr12(a: nat)
    ensures Shr(a, 12) == a / 4096
  {
    ShrFour(a, 8);
    ShrFour(a / 16, 4);
    ShrFour(a / 256, 0);
  }

  lemma {:induction false} Pow2Of12And36()
    ensures Pow2(12) == 4096 && Pow2(36) == 0x10_0000_0000
  {
    assert Pow2(6) == 64;
    assert Pow2(12) == 64 * Pow2(6);
    assert Pow2(18) == 64 * Pow2(12);
    assert Pow2(24) == 64 * Pow2(18);
    assert Pow2(30) == 64 * Pow2(24);
    assert Pow2(36) == 64 * Pow2(30);
  }

  lemma {:induction false} OrZero(a: nat)
    ensures Or(a, 0) == a && Or(0, a) == a
  {
  }

  /** The page part of `a | b` is the `|` of the page parts. */
  lemma {:induction false} OrPage(a: nat, b: nat)
    ensures Or(a, b) / 4096 == Or(a / 4096, b / 4096)
  {
    OrShr(a, b, 12);
    Shr12(a);
    Shr12(b);
    Shr12(Or(a, b));
  }

  /** The low bits of `a | b` are the `|` of the low bits. */
  lemma {:induction false} OrLow(a: nat, b: nat, k: nat)
    ensures Or(a, b) % Pow2(k) == Or(a % Pow2(k), b % Pow2(k))
  {
    if k > 0 {
      var p := Pow2(k - 1);
      ModHalf(a, p);
      ModHalf(b, p);
      ModHalf(Or(a, b), p);
      OrHalf(a, b);
      OrHalf(a % (2 * p), b % (2 * p));
      OrLow(a / 2, b / 2, k - 1);
    }
  }

  /** The offset part of `a | b` is the `|` of the offset parts. */
  lemma {:induction false} OrInPage(a: nat, b: nat)
    ensures Or(a, b) % 4096 == Or(a % 4096, b % 4096)
  {
    Pow2Of12And36();
    OrLow(a, b, 12);
  }

  lemma {:induction false} ModHalf(a: nat, p: nat)
    requires p > 0
    ensures a % (2 * p) / 2 == a / 2 % p && a % (2 * p) % 2 == a % 2
  {
    var q, r := a / 2 / p, a / 2 % p;
    assert a / 2 == p * q + r;
    assert a == (2 * p) * q + (2 * r + a % 2);
    RemainderIs(q, 2 * r + a % 2, 2 * p);
  }

  lemma {:induction false} OrComm(a: nat, b: nat)
    ensures Or(a, b) == Or(b, a)
  {
    if a != 0 && b != 0 {
      OrComm(a / 2, b / 2);
    }
  }

  lemma {:induction false} OrAssoc(a: nat, b: nat, c: nat)
    ensures Or(Or(a, b), c) == Or(a, Or(b, c))
  {
    if a != 0 && b != 0 && c != 0 {
      OrHalf(a, b);
      OrHalf(b, c);
      OrHalf(Or(a, b), c);
      OrHalf(a, Or(b, c));
      OrAssoc(a / 2, b / 2, c / 2);
    }
  }

  /** Disjoint fields: a multiple of `2^k` and a number below `2^k`. */
  lemma {:induction false} OrDisjoint(a: nat, f: nat, k: nat)
    requires a % Pow2(k) == 0 && f < Pow2(k)
    ensures Or(a, f) == a + f
  {
    if k > 0 && a != 0 && f != 0 {
      assert a % 2 == 0 && (a / 2) % Pow2(k - 1) == 0 by { HalfOfMultiple(a, Pow2(k - 1)); }
      OrDisjoint(a / 2, f / 2, k - 1);
    }
  }

  lemma {:induction false} HalfOfMultiple(a: nat, p: nat)
    requires p > 0 && a % (2 * p) == 0
    ensures a % 2 == 0 && (a / 2) % p == 0
  {
    var q := a / (2 * p);
    assert a == 2 * p * q;
    assert a == 2 * (p * q);
    assert a / 2 == p * q;
    MultipleMod(q, p);
  }

  lemma {:induction false} MultipleMod(q: nat, p: nat)
    requires p > 0
    ensures (p * q) % p == 0
  {
    var d, r := (p * q) / p, (p * q) % p;
    assert p * q == p * d + r;
    assert p * (q - d) == r;
    FactorAtLeastOne(q - d, p);
  }

  /** `a ^ b`. */
  function Xor(a: nat, b: nat): (r: nat) {
    if a == 0 then b
    else if b == 0 then a
    else 2 * Xor(a / 2, b / 2) + (if a % 2 != b % 2 then 1 else 0)
  }

  lemma {:induction false} XorHalf(a: nat, b: nat)
    ensures Xor(a, b) / 2 == Xor(a / 2, b / 2)
    ensures Xor(a, b) % 2 == if a % 2 != b % 2 then 1 else 0
  {
  }

  lemma {:induction false} XorBound(a: nat, b: nat, k: nat)
    requires a < Pow2(k) && b < Pow2(k)
    ensures Xor(a, b) < Pow2(k)
  {
    if k > 0 && a != 0 && b != 0 {
      XorBound(a / 2, b / 2, k - 1);
    }
  }

  lemma {:induction false} XorComm(a: nat, b: nat)
    ensures Xor(a, b) == Xor(b, a)
  {
    if a != 0 && b != 0 {
      XorComm(a / 2, b / 2);
    }
  }

  lemma {:induction false} XorTwice(a: nat, b: nat)
    ensures Xor(Xor(a, b), b) == a
  {
    if a != 0 || b != 0 {
      XorHalf(a, b);
      XorHalf(Xor(a, b), b);
      XorTwice(a / 2, b / 2);
    }
  }

  lemma {:induction false} XorZero(a: nat, b: nat)
    ensures Xor(a, b) == 0 <==> a == b
  {
    if a != 0 && b != 0 {
      XorZero(a / 2, b / 2);
    }
  }

  lemma {:induction false} OrIsZero(a: nat, b: nat)
    ensures Or(a, b) == 0 <==> a == 0 && b == 0
  {
    if a != 0 && b != 0 {
      OrIsZero(a / 2, b / 2);
    }
  }
}
