/** Python's unbounded integers under the bitwise operators the scripts use: `|` in two's complement,
    for negative operands too, and the bits it acts on. */
module PyInt {

  /** Bit `k` of `n` in two's complement, that is `(n >> k) & 1 == 1`. Dafny's `/` and `%` by 2 floor,
      as Python's `>>` does, also on negative numbers. */
  predicate Bit(n: int, k: nat)
    decreases k
  {
    if k == 0 then n % 2 == 1 else Bit(n / 2, k - 1)
  }

  function OrNat(a: nat, b: nat): nat
  {
    if a == 0 then b
    else if b == 0 then a
    else 2 * OrNat(a / 2, b / 2) + (if a % 2 == 1 || b % 2 == 1 then 1 else 0)
  }

  function AndNat(a: nat, b: nat): nat
  {
    if a == 0 || b == 0 then 0
    else 2 * AndNat(a / 2, b / 2) + (if a % 2 == 1 && b % 2 == 1 then 1 else 0)
  }

  /** `a & ~b` on non-negative numbers. */
  function AndNotNat(a: nat, b: nat): nat
  {
    if a == 0 then 0
    else if b == 0 then a
    else 2 * AndNotNat(a / 2, b / 2) + (if a % 2 == 1 && b % 2 == 0 then 1 else 0)
  }

  /** Python's `a | b`. A negative number is `-1 - x` (`~x`) for a non-negative `x`, and
      `~x | b == ~(x & ~b)`, `~x | ~y == ~(x & y)`. */
  function Or(a: int, b: int): int
  {
    if a >= 0 && b >= 0 then OrNat(a, b)
    else if a < 0 && b < 0 then -1 - AndNat(-1 - a, -1 - b)
    else if a < 0 then -1 - AndNotNat(-1 - a, b)
    else -1 - AndNotNat(-1 - b, a)
  }

  /** Two's complement halving: the low bit is the remainder, the others are the quotient's. */
  lemma BitHalves(n: int, k: nat)
    ensures Bit(n, 0) <==> n % 2 == 1
    ensures Bit(n, k + 1) <==> Bit(n / 2, k)
  {
  }

  lemma {:induction false} BitZero(k: nat)
    ensures !Bit(0, k)
  {
    if k > 0 {
      BitZero(k - 1);
    }
  }

  /** The bits of `~x` are the complements of the bits of `x`. */
  lemma {:induction false} BitComplement(x: int, k: nat)
    ensures Bit(-1 - x, k) <==> !Bit(x, k)
    decreases k
  {
    if k > 0 {
      assert (-1 - x) / 2 == -1 - x / 2;
      BitComplement(x / 2, k - 1);
    }
  }

  lemma {:induction false} BitOrNat(a: nat, b: nat, k: nat)
    ensures Bit(OrNat(a, b), k) <==> Bit(a, k) || Bit(b, k)
  {
    BitZero(k);
    if a != 0 && b != 0 && k > 0 {
      var r := OrNat(a, b);
      assert r / 2 == OrNat(a / 2, b / 2);
      BitOrNat(a / 2, b / 2, k - 1);
    }
  }

  lemma {:induction false} BitAndNat(a: nat, b: nat, k: nat)
    ensures Bit(AndNat(a, b), k) <==> Bit(a, k) && Bit(b, k)
  {
    BitZero(k);
    if a != 0 && b != 0 && k > 0 {
      var r := AndNat(a, b);
      assert r / 2 == AndNat(a / 2, b / 2);
      BitAndNat(a / 2, b / 2, k - 1);
    }
  }

  lemma {:induction false} BitAndNotNat(a: nat, b: nat, k: nat)
    ensures Bit(AndNotNat(a, b), k) <==> Bit(a, k) && !Bit(b, k)
  {
    BitZero(k);
    if a != 0 && b != 0 && k > 0 {
      var r := AndNotNat(a, b);
      assert r / 2 == AndNotNat(a / 2, b / 2);
      BitAndNotNat(a / 2, b / 2, k - 1);
    }
  }

  /** `a | b` has exactly the bits set in `a` or in `b`. */
  lemma BitOr(a: int, b: int, k: nat)
    ensures Bit(Or(a, b), k) <==> Bit(a, k) || Bit(b, k)
  {
    if a >= 0 && b >= 0 {
      BitOrNat(a, b, k);
    } else if a < 0 && b < 0 {
      BitAndNat(-1 - a, -1 - b, k);
      BitComplement(AndNat(-1 - a, -1 - b), k);
      BitComplement(-1 - a, k);
      BitComplement(-1 - b, k);
      assert -1 - (-1 - a) == a && -1 - (-1 - b) == b;
    } else if a < 0 {
      BitAndNotNat(-1 - a, b, k);
      BitComplement(AndNotNat(-1 - a, b), k);
      BitComplement(-1 - a, k);
      assert -1 - (-1 - a) == a;
    } else {
      BitAndNotNat(-1 - b, a, k);
      BitComplement(AndNotNat(-1 - b, a), k);
      BitComplement(-1 - b, k);
      assert -1 - (-1 - b) == b;
    }
  }

  /** A non-negative number is determined by its bits. */
  lemma {:induction false} BitsDetermine(n: nat, m: nat)
    requires forall k: nat :: Bit(n, k) == Bit(m, k)
    ensures n == m
    decreases n + m
  {
    BitHalves(n, 0);
    BitHalves(m, 0);
    if n != 0 || m != 0 {
      forall k: nat ensures Bit(n / 2, k) == Bit(m / 2, k) {
        BitHalves(n, k);
        BitHalves(m, k);
      }
      BitsDetermine(n / 2, m / 2);
    }
  }

  lemma {:induction false} AndNotNatZero(a: nat)
    ensures AndNotNat(a, 0) == a && AndNotNat(0, a) == 0 && AndNat(a, 0) == 0 && AndNat(0, a) == 0
  {
  }

  /** `0` is neutral and `-1` is absorbing for `|`. */
  lemma OrUnits(a: int)
    ensures Or(0, a) == a && Or(a, 0) == a
    ensures Or(-1, a) == -1 && Or(a, -1) == -1
  {
    if a < 0 {
      AndNotNatZero(-1 - a);
    } else {
      AndNotNatZero(a);
    }
  }

  /** `|` of two numbers is negative exactly when one of them is. */
  lemma OrSign(a: int, b: int)
    ensures Or(a, b) < 0 <==> a < 0 || b < 0
  {
  }

  lemma OrCommutes(a: int, b: int)
    ensures Or(a, b) == Or(b, a)
  {
    if a >= 0 && b >= 0 {
      forall k: nat ensures Bit(OrNat(a, b), k) == Bit(OrNat(b, a), k) {
        BitOrNat(a, b, k);
        BitOrNat(b, a, k);
      }
      BitsDetermine(OrNat(a, b), OrNat(b, a));
    } else if a < 0 && b < 0 {
      var x: nat, y: nat := -1 - a, -1 - b;
      forall k: nat ensures Bit(AndNat(x, y), k) == Bit(AndNat(y, x), k) {
        BitAndNat(x, y, k);
        BitAndNat(y, x, k);
      }
      BitsDetermine(AndNat(x, y), AndNat(y, x));
    }
  }

  /** `functools.reduce(operator.or_, rs, 0)`: the `final_ret |= ret` accumulation. */
  function OrAll(rs: seq<int>): int
  {
    if rs == [] then 0 else Or(OrAll(rs[..|rs| - 1]), rs[|rs| - 1])
  }

  /** The accumulated value has bit `k` set exactly when some accumulated value had it. */
  lemma {:induction false} OrAllBits(rs: seq<int>, k: nat)
    ensures Bit(OrAll(rs), k) <==> exists i :: 0 <= i < |rs| && Bit(rs[i], k)
  {
    if rs == [] {
      BitZero(k);
    } else {
      var p := rs[..|rs| - 1];
      OrAllBits(p, k);
      BitOr(OrAll(p), rs[|rs| - 1], k);
      assert forall i :: 0 <= i < |p| ==> p[i] == rs[i];
      if Bit(OrAll(rs), k) && !Bit(rs[|rs| - 1], k) {
        var i :| 0 <= i < |p| && Bit(p[i], k);
        assert Bit(rs[i], k);
      }
    }
  }

  /** The accumulated value is negative exactly when some accumulated value was (`-1` absorbs every bit). */
  lemma {:induction false} OrAllSign(rs: seq<int>)
    ensures OrAll(rs) < 0 <==> exists i :: 0 <= i < |rs| && rs[i] < 0
  {
    if rs != [] {
      var p := rs[..|rs| - 1];
      OrAllSign(p);
      OrSign(OrAll(p), rs[|rs| - 1]);
      assert forall i :: 0 <= i < |p| ==> p[i] == rs[i];
      if OrAll(rs) < 0 && rs[|rs| - 1] >= 0 {
        var i :| 0 <= i < |p| && p[i] < 0;
        assert rs[i] < 0;
      }
    }
  }

  /** Any `-1` among the accumulated values makes the whole result `-1`. */
  lemma {:induction false} OrAllMinusOne(rs: seq<int>, j: nat)
    requires j < |rs| && rs[j] == -1
    ensures OrAll(rs) == -1
  {
    var p := rs[..|rs| - 1];
    if j == |rs| - 1 {
      OrUnits(OrAll(p));
    } else {
      OrAllMinusOne(p, j);
      OrUnits(rs[|rs| - 1]);
    }
  }

  /** Accumulating only zeros gives `0`. */
  lemma {:induction false} OrAllZeros(rs: seq<int>)
    requires forall i :: 0 <= i < |rs| ==> rs[i] == 0
    ensures OrAll(rs) == 0
  {
    if rs != [] {
      OrAllZeros(rs[..|rs| - 1]);
      OrUnits(0);
    }
  }

  /** A negative number with every bit set is `-1`. */
  lemma AllBitsMinusOne(v: int)
    requires v < 0 && forall k: nat :: Bit(v, k)
    ensures v == -1
  {
    var x: nat := -1 - v;
    forall k: nat ensures Bit(x, k) == Bit(0, k) {
      BitComplement(v, k);
      BitZero(k);
    }
    BitsDetermine(x, 0);
  }
}
