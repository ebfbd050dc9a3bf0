/** Shifts and bitwise operators on unbounded naturals, and how they act on the two parts of a number. */
module Bits {
  datatype Op = And | Or | Xor

  function Bit(op: Op, a: nat, b: nat): nat
    requires a < 2 && b < 2
  {
    match op
    case And => if a == 1 && b == 1 then 1 else 0
    case Or => if a == 1 || b == 1 then 1 else 0
    case Xor => if a != b then 1 else 0
  }

  function Bitwise(op: Op, a: nat, b: nat): nat
    decreases a + b
  {
    if a == 0 && b == 0 then 0 else 2 * Bitwise(op, a / 2, b / 2) + Bit(op, a % 2, b % 2)
  }

  function Shl(a: nat, k: nat): (r: nat)
    ensures a > 0 ==> r > 0
    decreases k
  {
    if k == 0 then a else 2 * Shl(a, k - 1)
  }

  function Shr(a: nat, k: nat): nat
    decreases k
  {
    if k == 0 then a else Shr(a / 2, k - 1)
  }

  /** The number with `k` low bits `l` under `h`. */
  function Join(h: nat, k: nat, l: nat): nat {
    Shl(h, k) + l
  }

  /** The number with its lowest `n` bits set. */
  function Ones(n: nat): nat {
    Shl(1, n) - 1
  }

  lemma {:induction false} ShlSum(a: nat, b: nat, k: nat)
    ensures Shl(a + b, k) == Shl(a, k) + Shl(b, k)
    decreases k
  {
    if k > 0 { ShlSum(a, b, k - 1); }
  }

  lemma {:induction false} ShlTwice(a: nat, j: nat, k: nat)
    ensures Shl(Shl(a, j), k) == Shl(a, j + k)
    decreases k
  {
    if k > 0 { ShlTwice(a, j, k - 1); }
  }

  lemma {:induction false} ShlOrder(a: nat, b: nat, k: nat)
    ensures a < b <==> Shl(a, k) < Shl(b, k)
    ensures a < b ==> Shl(a, k) + Shl(1, k) <= Shl(b, k)
    decreases k
  {
    if k > 0 { ShlOrder(a, b, k - 1); }
  }

  /** The part below bit `k`. */
  lemma {:induction false} LowPart(a: nat, k: nat) returns (l: nat)
    ensures a == Join(Shr(a, k), k, l) && l < Shl(1, k)
    decreases k
  {
    if k == 0 {
      l := 0;
    } else {
      var m := LowPart(a / 2, k - 1);
      l := 2 * m + a % 2;
    }
  }

  lemma {:induction false} ShrUnique(h: nat, l: nat, k: nat)
    requires l < Shl(1, k)
    ensures Shr(Join(h, k, l), k) == h
    decreases k
  {
    if k > 0 {
      ShrUnique(h, l / 2, k - 1);
      assert Join(h, k, l) / 2 == Join(h, k - 1, l / 2);
    }
  }

  lemma JoinHalf(a: nat, c: nat)
    requires c < 2
    ensures Join(a, 1, c) / 2 == a && Join(a, 1, c) % 2 == c
  {
    assert Join(a, 1, c) == 2 * a + c;
  }

  /** The operators work on the lowest bits and on the rest. */
  lemma Lowest(op: Op, a: nat, c: nat, b: nat, d: nat)
    requires c < 2 && d < 2
    ensures Bitwise(op, Join(a, 1, c), Join(b, 1, d)) == Join(Bitwise(op, a, b), 1, Bit(op, c, d))
  {
    JoinHalf(a, c);
    JoinHalf(b, d);
  }

  lemma JoinStep(h: nat, k: nat, l: nat)
    requires k > 0
    ensures Join(h, k, l) == Join(Join(h, k - 1, l / 2), 1, l % 2)
    ensures l == Join(l / 2, 1, l % 2)
  {
  }

  lemma JoinNested(h: nat, k: nat, l: nat, c: nat)
    requires k > 0
    ensures Join(Join(h, k - 1, l), 1, c) == Join(h, k, Join(l, 1, c))
  {
  }

  lemma JoinNone(h: nat, k: nat)
    ensures Join(h, 0, 0) == h && Join(h, k, 0) == Shl(h, k)
  {
  }

  /** High parts and low parts are combined independently. */
  lemma {:induction false} Halves(op: Op, k: nat, h: nat, l: nat, i: nat, m: nat)
    requires l < Shl(1, k) && m < Shl(1, k)
    ensures Bitwise(op, Join(h, k, l), Join(i, k, m)) == Join(Bitwise(op, h, i), k, Bitwise(op, l, m))
    decreases k
  {
    if k == 0 {
      assert l == 0 && m == 0;
      JoinNone(h, 0);
      JoinNone(i, 0);
      JoinNone(Bitwise(op, h, i), 0);
    } else {
      Halves(op, k - 1, h, l / 2, i, m / 2);
      JoinStep(h, k, l);
      JoinStep(i, k, m);
      Lowest(op, Join(h, k - 1, l / 2), l % 2, Join(i, k - 1, m / 2), m % 2);
      Lowest(op, l / 2, l % 2, m / 2, m % 2);
      JoinNested(Bitwise(op, h, i), k, Bitwise(op, l / 2, m / 2), Bit(op, l % 2, m % 2));
    }
  }

  lemma {:induction false} WithZero(a: nat)
    ensures Bitwise(And, a, 0) == 0 && Bitwise(Or, a, 0) == a && Bitwise(Or, 0, a) == a
    ensures Bitwise(Xor, a, 0) == a && Bitwise(Xor, 0, a) == a
  {
    if a != 0 { WithZero(a / 2); }
  }

  lemma {:induction false} XorSelf(a: nat)
    ensures Bitwise(Xor, a, a) == 0
  {
    if a != 0 { XorSelf(a / 2); }
  }

  lemma {:induction false} AndOnes(a: nat, n: nat)
    requires a < Shl(1, n)
    ensures Bitwise(And, a, Ones(n)) == a
    decreases n
  {
    if n > 0 {
      AndOnes(a / 2, n - 1);
      JoinStep(0, 1, a);
      assert Ones(n) == Join(Ones(n - 1), 1, 1);
      Lowest(And, a / 2, a % 2, Ones(n - 1), 1);
    }
  }
}
