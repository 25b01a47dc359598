/** Sums over finite sets and lists in a commutative monoid given by its zero and its addition. */
module Sums {

  ghost predicate Unit<W>(zero: W, plus: (W, W) -> W, a: W) {
    plus(zero, a) == a
  }

  ghost predicate Commutes<W>(plus: (W, W) -> W, a: W, b: W) {
    plus(a, b) == plus(b, a)
  }

  ghost predicate Associates<W>(plus: (W, W) -> W, a: W, b: W, c: W) {
    plus(plus(a, b), c) == plus(a, plus(b, c))
  }

  /** The laws are named so that a proof says where it uses which. */
  ghost predicate IsCommutativeMonoid<W(!new)>(zero: W, plus: (W, W) -> W) {
    && (forall a :: Unit(zero, plus, a))
    && (forall a, b :: Commutes(plus, a, b))
    && (forall a, b, c :: Associates(plus, a, b, c))
  }

  lemma Swap<W(!new)>(zero: W, plus: (W, W) -> W, a: W, b: W, c: W)
    requires IsCommutativeMonoid(zero, plus)
    ensures plus(a, plus(b, c)) == plus(b, plus(a, c))
  {
    assert Associates(plus, a, b, c) && Commutes(plus, a, b) && Associates(plus, b, a, c);
  }

  ghost function SetSum<T, W>(s: set<T>, f: T -> W, zero: W, plus: (W, W) -> W): W {
    if s == {} then zero
    else
      var x :| x in s;
      plus(f(x), SetSum(s - {x}, f, zero, plus))
  }

  /** Any element may be taken out first. */
  lemma {:induction false} SetSumTakesOut<T, W(!new)>(s: set<T>, f: T -> W, zero: W, plus: (W, W) -> W, x: T)
    requires IsCommutativeMonoid(zero, plus) && x in s
    ensures SetSum(s, f, zero, plus) == plus(f(x), SetSum(s - {x}, f, zero, plus))
    decreases s
  {
    var y :| y in s && SetSum(s, f, zero, plus) == plus(f(y), SetSum(s - {y}, f, zero, plus));
    if y != x {
      SetSumTakesOut(s - {y}, f, zero, plus, x);
      SetSumTakesOut(s - {x}, f, zero, plus, y);
      assert s - {y} - {x} == s - {x} - {y};
      Swap(zero, plus, f(x), f(y), SetSum(s - {x} - {y}, f, zero, plus));
    }
  }

  lemma {:induction false} SetSumUnion<T, W(!new)>(s: set<T>, t: set<T>, f: T -> W, zero: W, plus: (W, W) -> W)
    requires IsCommutativeMonoid(zero, plus) && s !! t
    ensures SetSum(s + t, f, zero, plus) == plus(SetSum(s, f, zero, plus), SetSum(t, f, zero, plus))
    decreases t
  {
    if t == {} {
      assert s + t == s;
      assert Commutes(plus, SetSum(s, f, zero, plus), zero) && Unit(zero, plus, SetSum(s, f, zero, plus));
    } else {
      var x :| x in t;
      SetSumTakesOut(t, f, zero, plus, x);
      SetSumTakesOut(s + t, f, zero, plus, x);
      assert (s + t) - {x} == s + (t - {x});
      SetSumUnion(s, t - {x}, f, zero, plus);
      Swap(zero, plus, f(x), SetSum(s, f, zero, plus), SetSum(t - {x}, f, zero, plus));
    }
  }

  /** `m` takes sums to sums. */
  ghost predicate IsAdditive<W(!new), V>(m: W -> V, zero: W, plus: (W, W) -> W, zero': V, plus': (V, V) -> V) {
    && m(zero) == zero'
    && forall a, b :: m(plus(a, b)) == plus'(m(a), m(b))
  }

  /** A sum may be measured term by term. */
  lemma {:induction false} SetSumMeasured<T, W(!new), V(!new)>(
    s: set<T>, f: T -> W, zero: W, plus: (W, W) -> W, m: W -> V, g: T -> V, zero': V, plus': (V, V) -> V)
    requires IsCommutativeMonoid(zero, plus) && IsCommutativeMonoid(zero', plus') && IsAdditive(m, zero, plus, zero', plus')
    requires forall x <- s :: m(f(x)) == g(x)
    ensures m(SetSum(s, f, zero, plus)) == SetSum(s, g, zero', plus')
    decreases s
  {
    if s != {} {
      var x :| x in s;
      SetSumTakesOut(s, f, zero, plus, x);
      SetSumTakesOut(s, g, zero', plus', x);
      SetSumMeasured(s - {x}, f, zero, plus, m, g, zero', plus');
    }
  }

  ghost function SeqSum<T, W>(s: seq<T>, f: T -> W, zero: W, plus: (W, W) -> W): W {
    if s == [] then zero else plus(SeqSum(s[..|s| - 1], f, zero, plus), f(s[|s| - 1]))
  }

  function Without<T>(s: seq<T>, i: nat): seq<T>
    requires i < |s|
  {
    s[..i] + s[i + 1..]
  }

  lemma MultisetWithout<T>(s: seq<T>, i: nat)
    requires i < |s|
    ensures multiset(Without(s, i)) == multiset(s) - multiset{s[i]}
    ensures multiset(s) == multiset(Without(s, i)) + multiset{s[i]}
  {
    assert s == s[..i] + [s[i]] + s[i + 1..];
  }

  lemma {:induction false} SeqSumWithout<T, W(!new)>(s: seq<T>, i: nat, f: T -> W, zero: W, plus: (W, W) -> W)
    requires IsCommutativeMonoid(zero, plus) && i < |s|
    ensures SeqSum(s, f, zero, plus) == plus(SeqSum(Without(s, i), f, zero, plus), f(s[i]))
  {
    var n := |s| - 1;
    if i == n {
      assert Without(s, i) == s[..n];
    } else {
      var init, rest := s[..n], Without(s, i);
      SeqSumWithout(init, i, f, zero, plus);
      assert rest[..|rest| - 1] == Without(init, i);
      var sum := SeqSum(Without(init, i), f, zero, plus);
      assert Associates(plus, sum, f(s[i]), f(s[n])) && Associates(plus, sum, f(s[n]), f(s[i]));
      assert Commutes(plus, f(s[i]), f(s[n]));
    }
  }

  /** The sum over a list does not depend on its order. */
  lemma {:induction false} SeqSumPermutation<T, W(!new)>(s: seq<T>, t: seq<T>, f: T -> W, zero: W, plus: (W, W) -> W)
    requires IsCommutativeMonoid(zero, plus) && multiset(s) == multiset(t)
    ensures SeqSum(s, f, zero, plus) == SeqSum(t, f, zero, plus)
    decreases |s|
  {
    assert |multiset(s)| == |s| && |multiset(t)| == |t|;
    if s != [] {
      var n := |s| - 1;
      assert s[n] in multiset(t);
      var i :| 0 <= i < |t| && t[i] == s[n];
      MultisetWithout(s, n);
      MultisetWithout(t, i);
      assert Without(s, n) == s[..n];
      SeqSumPermutation(s[..n], Without(t, i), f, zero, plus);
      SeqSumWithout(t, i, f, zero, plus);
    }
  }

  lemma {:induction false} SeqSumSameTerms<T, W>(s: seq<T>, f: T -> W, g: T -> W, zero: W, plus: (W, W) -> W)
    requires forall x <- s :: f(x) == g(x)
    ensures SeqSum(s, f, zero, plus) == SeqSum(s, g, zero, plus)
  {
    if s != [] {
      SeqSumSameTerms(s[..|s| - 1], f, g, zero, plus);
    }
  }
}
