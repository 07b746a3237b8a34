/** Polynomials over the two-element field, each as the set of exponents with coefficient one. */
module Polynomial {
  type poly = set<nat>

  function Sum(p: poly, q: poly): (r: poly)
    ensures forall e :: e in r <==> ((e in p) != (e in q))
  {
    (p - q) + (q - p)
  }

  /** The product with the power `k` of the indeterminate. */
  function Shift(p: poly, k: nat): (r: poly)
    ensures forall e :: e in r <==> e >= k && e - k in p
  {
    var r := set e | e in p :: e + k;
    assert forall e: nat :: e >= k && e - k in p ==> e in r by {
      forall e: nat | e >= k && e - k in p
        ensures e in r
      {
        var d: nat := e - k;
        assert d in p && d + k == e;
      }
    }
    r
  }

  /** The exponents of `p` that an exponent of `q` completes to `e`. */
  function Pairs(p: poly, q: poly, e: nat): (r: set<nat>) {
    set i | i in p && i <= e && e - i in q
  }

  /** Convolution: the coefficient at an exponent is the parity of the pairs that make it. */
  function Product(p: poly, q: poly): (r: poly)
    ensures forall e :: e in r <==> |Pairs(p, q, e)| % 2 == 1
  {
    var r := set i, j | i in p && j in q && |Pairs(p, q, i + j)| % 2 == 1 :: i + j;
    assert forall e :: |Pairs(p, q, e)| % 2 == 1 ==> e in r by {
      forall e: nat | |Pairs(p, q, e)| % 2 == 1
        ensures e in r
      {
        assert Pairs(p, q, e) != {};
        var i :| i in Pairs(p, q, e);
        assert i + (e - i) == e;
      }
    }
    r
  }

  /** The generator of the CCITT polynomial. */
  const GENERATOR: poly := {16, 12, 5, 0}

  const DEGREE: nat := 16

  function Multiple(q: poly): (r: poly) { Product(GENERATOR, q) }

  /** Long division by the generator leaves `r` from `m`, apart from the bound on the degree of `r`. */
  ghost predicate Leaves(m: poly, r: poly) {
    exists q :: m == Sum(Multiple(q), r)
  }

  /** `r` is the remainder of `m` under division by the generator. */
  ghost predicate Remainder(m: poly, r: poly) {
    Leaves(m, r) && forall e :: e in r ==> e < DEGREE
  }

  // ---- Multiples of the generator

  lemma OneMorePair(p: poly, i: nat, q: poly, e: nat)
    requires i !in p
    ensures |Pairs(p + {i}, q, e)| == |Pairs(p, q, e)| + if i <= e && e - i in q then 1 else 0
  {
    assert Pairs(p + {i}, q, e) == Pairs(p, q, e) + if i <= e && e - i in q then {i} else {};
  }

  lemma PairsOfGenerator(q: poly, e: nat)
    ensures |Pairs(GENERATOR, q, e)|
         == (if e >= 16 && e - 16 in q then 1 else 0) + (if e >= 12 && e - 12 in q then 1 else 0)
          + (if e >= 5 && e - 5 in q then 1 else 0) + (if e in q then 1 else 0)
  {
    hide Pairs;
    PairsOfTwo(q, e);
    assert {5, 0} + {12} == {12, 5, 0};
    OneMorePair({5, 0}, 12, q, e);
    assert {12, 5, 0} + {16} == GENERATOR;
    OneMorePair({12, 5, 0}, 16, q, e);
  }

  lemma PairsOfTwo(q: poly, e: nat)
    ensures |Pairs({5, 0}, q, e)| == (if e >= 5 && e - 5 in q then 1 else 0) + (if e in q then 1 else 0)
  {
    assert Pairs({}, q, e) == {};
    hide Pairs;
    assert {} + {0} == {0};
    OneMorePair({}, 0, q, e);
    assert {0} + {5} == {5, 0};
    OneMorePair({0}, 5, q, e);
  }

  lemma MultipleAt(q: poly, e: nat)
    ensures e in Multiple(q)
       <==> (((e >= 16 && e - 16 in q) != (e >= 12 && e - 12 in q)) != ((e >= 5 && e - 5 in q) != (e in q)))
  {
    hide Pairs;
    PairsOfGenerator(q, e);
    Parity(e >= 16 && e - 16 in q, e >= 12 && e - 12 in q, e >= 5 && e - 5 in q, e in q);
  }

  lemma Parity(a: bool, b: bool, c: bool, d: bool)
    ensures ((if a then 1 else 0) + (if b then 1 else 0) + (if c then 1 else 0) + (if d then 1 else 0)) % 2 == 1
       <==> ((a != b) != (c != d))
  {
  }

  lemma MultipleOfSum(p: poly, q: poly)
    ensures Multiple(Sum(p, q)) == Sum(Multiple(p), Multiple(q))
  {
    hide Multiple, Sum;
    forall e: nat
      ensures e in Multiple(Sum(p, q)) <==> e in Sum(Multiple(p), Multiple(q))
    {
      MultipleAt(p, e);
      MultipleAt(q, e);
      MultipleAt(Sum(p, q), e);
    }
  }

  lemma MultipleOfShift(q: poly, k: nat)
    ensures Multiple(Shift(q, k)) == Shift(Multiple(q), k)
  {
    hide Multiple, Shift;
    forall e: nat
      ensures e in Multiple(Shift(q, k)) <==> e in Shift(Multiple(q), k)
    {
      MultipleAt(Shift(q, k), e);
      if e >= k {
        MultipleAt(q, e - k);
      }
    }
  }

  lemma MultipleOfNone()
    ensures Multiple({}) == {}
  {
    hide Multiple;
    forall e: nat
      ensures e !in Multiple({})
    {
      MultipleAt({}, e);
    }
  }

  lemma MultipleOfOne()
    ensures Multiple({0}) == GENERATOR
  {
    hide Multiple;
    forall e: nat
      ensures e in Multiple({0}) <==> e in GENERATOR
    {
      MultipleAt({0}, e);
    }
  }

  // ---- What division leaves

  lemma LeavesItself(m: poly)
    ensures Leaves(m, m)
  {
    MultipleOfNone();
    assert m == Sum(Multiple({}), m);
  }

  lemma LeavesShift(m: poly, r: poly, k: nat)
    requires Leaves(m, r)
    ensures Leaves(Shift(m, k), Shift(r, k))
  {
    hide Multiple;
    var q :| m == Sum(Multiple(q), r);
    MultipleOfShift(q, k);
    assert Shift(m, k) == Sum(Multiple(Shift(q, k)), Shift(r, k));
  }

  lemma LeavesSum(m: poly, r: poly, n: poly, s: poly)
    requires Leaves(m, r) && Leaves(n, s)
    ensures Leaves(Sum(m, n), Sum(r, s))
  {
    hide Multiple;
    var p :| m == Sum(Multiple(p), r);
    var q :| n == Sum(Multiple(q), s);
    MultipleOfSum(p, q);
    assert Sum(m, n) == Sum(Multiple(Sum(p, q)), Sum(r, s));
  }

  lemma LeavesTwice(m: poly, r: poly, s: poly)
    requires Leaves(m, r) && Leaves(r, s)
    ensures Leaves(m, s)
  {
    hide Multiple;
    var p :| m == Sum(Multiple(p), r);
    var q :| r == Sum(Multiple(q), s);
    MultipleOfSum(p, q);
    assert m == Sum(Multiple(Sum(p, q)), s);
  }

  // ---- There is only one remainder

  lemma LeadingTerm(q: poly) returns (e: nat)
    requires q != {}
    ensures e in q && forall f :: f in q ==> f <= e
    decreases |q|
  {
    var some :| some in q;
    var rest := q - {some};
    if rest == {} {
      assert q == {some};
      e := some;
    } else {
      var most := LeadingTerm(rest);
      e := if most > some then most else some;
      assert forall f :: f in q && f != some ==> f in rest;
    }
  }

  lemma SmallMultiple(q: poly)
    requires forall e :: e in Multiple(q) ==> e < DEGREE
    ensures q == {}
  {
    hide Multiple;
    if q != {} {
      var e := LeadingTerm(q);
      MultipleAt(q, e + DEGREE);
    }
  }

  /** Division with remainder has one answer. */
  lemma RemainderUnique(m: poly, r: poly, s: poly)
    requires Remainder(m, r) && Remainder(m, s)
    ensures r == s
  {
    hide Multiple;
    var p :| m == Sum(Multiple(p), r);
    var q :| m == Sum(Multiple(q), s);
    MultipleOfSum(p, q);
    assert Multiple(Sum(p, q)) == Sum(r, s);
    SmallMultiple(Sum(p, q));
    MultipleOfNone();
    assert forall e :: (e in r) == (e in s);
  }
}
