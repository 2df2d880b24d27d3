/** Polynomials over the field of two elements, and congruence modulo one of them. */
module BinaryPolynomials {
  /** A polynomial is the set of the exponents with coefficient one. */
  type Polynomial = set<nat>

  ghost function Plus(a: Polynomial, b: Polynomial): Polynomial
  {
    (a - b) + (b - a)
  }

  /** a times x to the power k. */
  ghost function Times(a: Polynomial, k: nat): Polynomial
  {
    set e | e in a :: e + k
  }

  /** The terms of q that contribute to exponent e of q times g. */
  ghost function Terms(g: Polynomial, q: Polynomial, e: nat): Polynomial
  {
    set t | t in q && t <= e && e - t in g
  }

  /** Exponent e has coefficient one in q times g. */
  ghost predicate InProduct(g: Polynomial, q: Polynomial, e: nat)
  {
    Odd(Terms(g, q, e))
  }

  ghost predicate Odd(s: set<nat>)
  {
    |s| % 2 == 1
  }

  /** a and b differ by q times g. */
  ghost predicate DifferBy(g: Polynomial, a: Polynomial, b: Polynomial, q: Polynomial)
  {
    forall e: nat {:trigger InProduct(g, q, e)} :: e in Plus(a, b) <==> InProduct(g, q, e)
  }

  ghost predicate Congruent(g: Polynomial, a: Polynomial, b: Polynomial)
  {
    exists q :: DifferBy(g, a, b, q)
  }

  // ----- congruence -----

  lemma PlusHas(a: Polynomial, b: Polynomial, e: nat)
    ensures e in Plus(a, b) <==> (e in a) != (e in b)
  {
  }

  lemma SumCount(a: Polynomial, b: Polynomial)
    ensures |Plus(a, b)| == |a| + |b| - 2 * |a * b|
  {
    assert a == (a - b) + (a * b) && b == (b - a) + (a * b);
    assert |a| == |a - b| + |a * b| && |b| == |b - a| + |a * b|;
    assert |Plus(a, b)| == |a - b| + |b - a|;
  }

  lemma OddSum(a: Polynomial, b: Polynomial)
    ensures Odd(Plus(a, b)) <==> Odd(a) != Odd(b)
  {
    SumCount(a, b);
    Parity(|a|, |b|, |a * b|);
  }

  lemma Parity(x: int, y: int, z: int)
    ensures (x + y - 2 * z) % 2 == 1 <==> (x % 2 == 1) != (y % 2 == 1)
  {
  }

  lemma TermsOfSum(g: Polynomial, p: Polynomial, q: Polynomial, e: nat)
    ensures Terms(g, Plus(p, q), e) == Plus(Terms(g, p, e), Terms(g, q, e))
  {
  }

  lemma ProductOfSum(g: Polynomial, p: Polynomial, q: Polynomial, e: nat)
    ensures InProduct(g, Plus(p, q), e) <==> InProduct(g, p, e) != InProduct(g, q, e)
  {
    OddSum(Terms(g, p, e), Terms(g, q, e));
    TermsOfSum(g, p, q, e);
  }

  lemma CongruentSame(g: Polynomial, a: Polynomial)
    ensures Congruent(g, a, a)
  {
    forall e: nat ensures e in Plus(a, a) <==> InProduct(g, {}, e) { assert Terms(g, {}, e) == {}; }
    assert DifferBy(g, a, a, {});
  }

  lemma CongruentChain(g: Polynomial, a: Polynomial, b: Polynomial, c: Polynomial)
    requires Congruent(g, a, b) && Congruent(g, b, c)
    ensures Congruent(g, a, c)
  {
    var p :| DifferBy(g, a, b, p);
    var q :| DifferBy(g, b, c, q);
    forall e: nat ensures e in Plus(a, c) <==> InProduct(g, Plus(p, q), e) {
      ProductOfSum(g, p, q, e);
      assert e in Plus(a, b) <==> InProduct(g, p, e);
      assert e in Plus(b, c) <==> InProduct(g, q, e);
    }
    assert DifferBy(g, a, c, Plus(p, q));
  }

  lemma CongruentPlus(g: Polynomial, a: Polynomial, b: Polynomial, c: Polynomial)
    requires Congruent(g, a, b)
    ensures Congruent(g, Plus(a, c), Plus(b, c))
  {
    var q :| DifferBy(g, a, b, q);
    assert Plus(Plus(a, c), Plus(b, c)) == Plus(a, b);
    assert DifferBy(g, Plus(a, c), Plus(b, c), q);
  }

  lemma TimesHas(a: Polynomial, k: nat, e: nat)
    ensures e in Times(a, k) <==> e >= k && e - k in a
  {
    if e >= k && e - k in a { assert (e - k) + k == e; }
  }

  lemma {:induction false} SameCount(a: Polynomial, k: nat)
    ensures |Times(a, k)| == |a|
  {
    if a == {} {
      assert Times(a, k) == {};
    } else {
      var t :| t in a;
      SameCount(a - {t}, k);
      forall e: nat ensures e in Times(a, k) <==> e in Times(a - {t}, k) || e == t + k {
        TimesHas(a, k, e);
        TimesHas(a - {t}, k, e);
      }
      TimesHas(a - {t}, k, t + k);
      assert Times(a, k) == Times(a - {t}, k) + {t + k};
    }
  }

  lemma ProductShifted(g: Polynomial, q: Polynomial, k: nat, e: nat)
    ensures InProduct(g, Times(q, k), e) <==> e >= k && InProduct(g, q, e - k)
  {
    if e >= k {
      SameCount(Terms(g, q, e - k), k);
      forall t: nat ensures t in Terms(g, Times(q, k), e) <==> t in Times(Terms(g, q, e - k), k) {
        TimesHas(q, k, t);
        TimesHas(Terms(g, q, e - k), k, t);
      }
      assert Terms(g, Times(q, k), e) == Times(Terms(g, q, e - k), k);
    } else {
      forall t: nat ensures t !in Terms(g, Times(q, k), e) { TimesHas(q, k, t); }
      assert Terms(g, Times(q, k), e) == {};
    }
  }

  lemma CongruentTimes(g: Polynomial, a: Polynomial, b: Polynomial, k: nat)
    requires Congruent(g, a, b)
    ensures Congruent(g, Times(a, k), Times(b, k))
  {
    var q :| DifferBy(g, a, b, q);
    forall e: nat ensures e in Plus(Times(a, k), Times(b, k)) <==> InProduct(g, Times(q, k), e) {
      TimesHas(a, k, e);
      TimesHas(b, k, e);
      ProductShifted(g, q, k, e);
      if e >= k { assert e - k in Plus(a, b) <==> InProduct(g, q, e - k); }
    }
    assert DifferBy(g, Times(a, k), Times(b, k), Times(q, k));
  }

  lemma CongruentModulus(g: Polynomial, a: Polynomial)
    ensures Congruent(g, Plus(a, g), a)
  {
    forall e: nat ensures e in Plus(Plus(a, g), a) <==> InProduct(g, {0}, e) {
      assert Terms(g, {0}, e) == if e in g then {0} else {};
    }
    assert DifferBy(g, Plus(a, g), a, {0});
  }

  // ----- remainders -----

  /** a has a degree below n. */
  ghost predicate Reduced(a: Polynomial, n: nat)
  {
    forall e: nat {:trigger e in a} :: e in a ==> e < n
  }

  lemma {:induction false} Highest(q: Polynomial) returns (m: nat)
    requires q != {}
    ensures m in q && forall t {:trigger t in q} :: t in q ==> t <= m
  {
    var t :| t in q;
    var rest := q - {t};
    m := t;
    if rest != {} {
      m := Highest(rest);
      if m < t { m := t; }
    }
    forall s | s in q ensures s <= m { if s != t { assert s in rest; } }
  }

  /** The highest term of q times g is the product of their highest terms. */
  lemma ProductIsHigh(g: Polynomial, q: Polynomial, n: nat, m: nat)
    requires n in g && Reduced(g, n + 1) && m in q && forall t {:trigger t in q} :: t in q ==> t <= m
    ensures InProduct(g, q, m + n)
  {
    assert Terms(g, q, m + n) == {m};
  }

  /** There is one remainder: congruent polynomials below the degree of the modulus are equal. */
  lemma RemainderIsUnique(g: Polynomial, n: nat, a: Polynomial, b: Polynomial)
    requires n in g && Reduced(g, n + 1)
    requires Congruent(g, a, b) && Reduced(a, n) && Reduced(b, n)
    ensures a == b
  {
    var q :| DifferBy(g, a, b, q);
    if q != {} {
      var m := Highest(q);
      ProductIsHigh(g, q, n, m);
      PlusHas(a, b, m + n);
    } else {
      forall e: nat ensures e in a <==> e in b {
        assert Terms(g, q, e) == {};
        assert e in Plus(a, b) <==> InProduct(g, q, e);
      }
    }
  }
}
