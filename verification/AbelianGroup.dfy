// The points of the curve as any abelian group. The coordinate systems of the C code (p2, p3,
// p1p1, cached, precomp) are representations of one group element and are not told apart.
module AbelianGroup {
  datatype Group<!T> = Group(zero: T, add: (T, T) -> T, neg: T -> T)

  ghost predicate Associative<T>(g: Group<T>, x: T, y: T, z: T) { g.add(g.add(x, y), z) == g.add(x, g.add(y, z)) }

  ghost predicate Commutative<T>(g: Group<T>, x: T, y: T) { g.add(x, y) == g.add(y, x) }

  ghost predicate Neutral<T>(g: Group<T>, x: T) { g.add(x, g.zero) == x && g.add(x, g.neg(x)) == g.zero }

  ghost predicate Abelian<T(!new)>(g: Group<T>) {
    && (forall x, y, z :: Associative(g, x, y, z))
    && (forall x, y :: Commutative(g, x, y))
    && (forall x :: Neutral(g, x))
  }

  function Double<T>(g: Group<T>, x: T): T { g.add(x, x) }

  function Subtract<T>(g: Group<T>, x: T, y: T): T { g.add(x, g.neg(y)) }

  // n times x, for any integer n.
  ghost function Mul<T>(g: Group<T>, n: int, x: T): T
    decreases if n < 0 then -n else n
  {
    if n == 0 then g.zero
    else if n > 0 then g.add(Mul(g, n - 1, x), x)
    else Subtract(g, Mul(g, n + 1, x), x)
  }

  lemma Successor<T(!new)>(g: Group<T>, n: int, x: T)
    requires Abelian(g)
    ensures Mul(g, n + 1, x) == g.add(Mul(g, n, x), x)
    ensures Mul(g, n - 1, x) == Subtract(g, Mul(g, n, x), x)
  {
    if n < 0 {
      Undo(g, Mul(g, n + 1, x), x);
    } else if n > 0 {
      Undo(g, Mul(g, n - 1, x), x);
    }
  }

  lemma Undo<T(!new)>(g: Group<T>, y: T, x: T)
    requires Abelian(g)
    ensures g.add(Subtract(g, y, x), x) == y && Subtract(g, g.add(y, x), x) == y
  {
    assert Associative(g, y, g.neg(x), x) && Commutative(g, g.neg(x), x) && Neutral(g, x);
    assert Associative(g, y, x, g.neg(x)) && Neutral(g, y);
  }

  lemma Associate<T(!new)>(g: Group<T>, x: T, y: T, z: T)
    requires Abelian(g)
    ensures g.add(g.add(x, y), z) == g.add(x, g.add(y, z))
  {
    assert Associative(g, x, y, z);
  }

  lemma ZeroLeft<T(!new)>(g: Group<T>, x: T)
    requires Abelian(g)
    ensures g.add(g.zero, x) == x
  {
    assert Commutative(g, g.zero, x) && Neutral(g, x);
  }

  lemma ZeroRight<T(!new)>(g: Group<T>, x: T)
    requires Abelian(g)
    ensures g.add(x, g.zero) == x
  {
    assert Neutral(g, x);
  }

  lemma {:induction false} MulPlus<T(!new)>(g: Group<T>, m: int, n: int, x: T)
    requires Abelian(g)
    ensures Mul(g, m + n, x) == g.add(Mul(g, m, x), Mul(g, n, x))
    decreases if n < 0 then -n else n
  {
    if n == 0 {
      ZeroRight(g, Mul(g, m, x));
    } else if n > 0 {
      MulPlus(g, m, n - 1, x);
      Successor(g, m + n - 1, x);
      Associate(g, Mul(g, m, x), Mul(g, n - 1, x), x);
    } else {
      MulPlus(g, m, n + 1, x);
      Successor(g, m + n + 1, x);
      Associate(g, Mul(g, m, x), Mul(g, n + 1, x), g.neg(x));
    }
  }

  lemma MulMinus<T(!new)>(g: Group<T>, m: int, n: int, x: T)
    requires Abelian(g)
    ensures Mul(g, m - n, x) == Subtract(g, Mul(g, m, x), Mul(g, n, x))
  {
    hide Abelian, Mul;
    MulPlus(g, m - n, n, x);
    Undo(g, Mul(g, m - n, x), Mul(g, n, x));
  }

  lemma MulDouble<T(!new)>(g: Group<T>, n: int, x: T)
    requires Abelian(g)
    ensures Mul(g, 2 * n, x) == Double(g, Mul(g, n, x))
  {
    MulPlus(g, n, n, x);
  }

  lemma MulOne<T(!new)>(g: Group<T>, x: T)
    requires Abelian(g)
    ensures Mul(g, 1, x) == x && Mul(g, 0, x) == g.zero
  {
    assert Mul(g, 1, x) == g.add(Mul(g, 0, x), x);
    ZeroLeft(g, x);
  }

  // (m x + n y) + (p x + q y) = (m + p) x + (n + q) y
  lemma Combine<T(!new)>(g: Group<T>, a: T, b: T, c: T, d: T)
    requires Abelian(g)
    ensures g.add(g.add(a, b), g.add(c, d)) == g.add(g.add(a, c), g.add(b, d))
  {
    Associate(g, a, b, g.add(c, d));
    Associate(g, b, c, d);
    assert Commutative(g, b, c);
    Associate(g, c, b, d);
    Associate(g, a, c, g.add(b, d));
  }
}
