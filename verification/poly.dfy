/**
 * Dense integer polynomials (Assignment1/poly.cpp).
 *
 * A polynomial is its coefficient array: index i holds the coefficient of
 * x^i and the size is the number of slots. Every constructor allocates at
 * least one slot, so the size is never zero. The arithmetic operators are
 * modelled twice where the code differs from what its comments promise:
 * once as written (the `...AsWritten` members) and once as intended (the
 * members the rest of the model uses).
 */
module Polynomial {
  import opened Options
  import opened Numbers

  /** Poly::EMPTY, the value of a coefficient nobody has set. */
  const EMPTY: int := 0

  /** A coefficient array with at least one slot. */
  type Poly = s: seq<int> | |s| >= 1 witness [EMPTY]

  /** The slots after the first; empty for an empty array. */
  function Tail(s: seq<int>): seq<int> { if |s| == 0 then s else s[1..] }

  /* ---------------------------------------------------------------- *
   * Constructors, accessors, clear
   * ---------------------------------------------------------------- */

  /** Poly(): a single slot holding EMPTY. */
  function Zero(): (p: Poly)
    ensures |p| == 1 && p[0] == EMPTY
  {
    [EMPTY]
  }

  /** Poly(c): a single slot holding c. */
  function Constant(c: int): (p: Poly)
    ensures |p| == 1 && p[0] == c
  {
    [c]
  }

  /** Poly(c, d): c·x^d, stored in d + 1 slots. */
  function Monomial(c: int, d: nat): (p: Poly)
    ensures |p| == d + 1 && p[d] == c
    ensures forall i :: 0 <= i < d ==> p[i] == EMPTY
  {
    seq(d, _ => EMPTY) + [c]
  }

  /** clear(): back to the single EMPTY slot, whatever the size was. */
  function Clear(p: Poly): (r: Poly)
    ensures |r| == 1 && r[0] == EMPTY
  {
    Zero()
  }

  /** getCoeff(d) with the bound the code evidently intends: the stored
      coefficient for 0 <= d < size and 0 for every other degree. */
  function GetCoeff(p: seq<int>, d: int): (r: int)
    ensures r != 0 ==> 0 <= d < |p|
  {
    if 0 <= d < |p| then p[d] else 0
  }

  /** getCoeff(d) as written: it only rejects d > size + 1, so the degrees
      size and size + 1 read past the array (None marks those reads). */
  function GetCoeffAsWritten(p: Poly, d: int): (r: Option<int>)
    ensures r.None? <==> d == |p| || d == |p| + 1
    ensures r.Some? ==> r.value == GetCoeff(p, d)
  {
    if d > |p| + 1 || d < 0 then Some(0)
    else if d < |p| then Some(p[d])
    else None
  }

  /** Read through the intended getCoeff, Poly(c, d) is c·x^d: c at degree
      d and 0 at every other degree, below or above the array alike. */
  lemma GetCoeffMonomial(c: int, d: nat, k: int)
    ensures GetCoeff(Monomial(c, d), k) == if k == d then c else 0
  {
  }

  /** getCoeff(): the coefficient in the last slot. */
  function Leading(p: Poly): int
  {
    p[|p| - 1]
  }

  /** getCoeff() agrees with getCoeff(size - 1): it is the coefficient of
      the top slot, whether or not that coefficient is 0. */
  lemma LeadingIsTopCoeff(p: Poly)
    ensures Leading(p) == GetCoeff(p, |p| - 1)
    ensures forall c, d :: Leading(Monomial(c, d)) == c
  {
  }

  /** The value of the polynomial at x; the meaning every operator is
      measured against. */
  function Eval(p: seq<int>, x: int): int
  {
    if |p| == 0 then 0 else p[0] + x * Eval(p[1..], x)
  }

  /* ---------------------------------------------------------------- *
   * operator+ and operator-
   * ---------------------------------------------------------------- */

  datatype Op = Plus | Minus

  function Apply(op: Op, x: int, y: int): int
  {
    match op
    case Plus => x + y
    case Minus => x - y
  }

  /** The effect of the in-range calls setCoeff(vals[k], lo + k). */
  function Splice(p: seq<int>, lo: nat, vals: seq<int>): (r: seq<int>)
    requires lo + |vals| <= |p|
    ensures |r| == |p|
    ensures forall i :: 0 <= i < |p| ==> r[i] == if lo <= i < lo + |vals| then vals[i - lo] else p[i]
  {
    p[..lo] + vals + p[lo + |vals|..]
  }

  /** operator+ (op = Plus) and operator- (op = Minus) as written: start from
      Poly(lhs.getCoeff(), size - 1), combine the terms below the greatest
      common term, then copy the longer operand from that term upward. The
      greatest common term itself is never combined, and in operator- the
      copied rhs tail keeps its sign. */
  function CombineAsWritten(a: Poly, b: Poly, op: Op): (r: Poly)
    ensures |r| == Max(|a|, |b|)
    ensures forall i :: 0 <= i < Min(|a|, |b|) - 1 ==> r[i] == Apply(op, a[i], b[i])
    ensures |a| == |b| ==> r[|a| - 1] == a[|a| - 1]
    ensures |a| > |b| ==> forall i :: |b| - 1 <= i < |a| ==> r[i] == a[i]
    ensures |a| < |b| ==> forall i :: |a| - 1 <= i < |b| ==> r[i] == b[i]
  {
    var size := Max(|a|, |b|);
    var common := Min(|a|, |b|) - 1;
    var start := Monomial(Leading(a), size - 1);
    var combined := Splice(start, 0, seq(common, i requires 0 <= i < common => Apply(op, a[i], b[i])));
    assert |start| == size >= 1 && |combined| == size;
    if |a| > |b| then Splice(combined, common, a[common..])
    else if |a| < |b| then Splice(combined, common, b[common..])
    else combined
  }

  /** Term-by-term combination, as the comments of operator+ and operator-
      describe it: a missing term counts as 0. */
  function Combine(a: seq<int>, b: seq<int>, op: Op): (r: seq<int>)
    ensures |r| == Max(|a|, |b|)
    ensures forall d :: GetCoeff(r, d) == Apply(op, GetCoeff(a, d), GetCoeff(b, d))
  {
    seq(Max(|a|, |b|), i => Apply(op, GetCoeff(a, i), GetCoeff(b, i)))
  }

  /** a + b as intended. */
  function Add(a: Poly, b: Poly): (r: Poly)
    ensures |r| == Max(|a|, |b|)
    ensures forall d :: GetCoeff(r, d) == GetCoeff(a, d) + GetCoeff(b, d)
  {
    Combine(a, b, Plus)
  }

  /** a - b as intended. */
  function Sub(a: Poly, b: Poly): (r: Poly)
    ensures |r| == Max(|a|, |b|)
    ensures forall d :: GetCoeff(r, d) == GetCoeff(a, d) - GetCoeff(b, d)
  {
    Combine(a, b, Minus)
  }

  /** Where the written operators part from the intended ones. Below the
      greatest common term m = min(|a|, |b|) - 1 they agree. At m the
      written result is the longer operand's coefficient (a's for equal
      sizes), so it is right only when the other operand's term there is
      0, or, for operator- with a longer rhs, when a[m] == 2 * b[m]. Above
      m the copied tail is right, except in operator- with a longer rhs,
      where every nonzero term of it has the wrong sign. */
  lemma CombineAsWrittenVsIntended(a: Poly, b: Poly, op: Op)
    ensures var r, c, m := CombineAsWritten(a, b, op), Combine(a, b, op), Min(|a|, |b|) - 1;
      && (forall i :: 0 <= i < m ==> r[i] == c[i])
      && (|a| >= |b| ==> forall i :: m < i < |a| ==> r[i] == c[i])
      && (|a| >= |b| ==> (r[m] == c[m] <==> b[m] == 0))
      && (|a| < |b| && op == Plus ==> (r[m] == c[m] <==> a[m] == 0))
      && (|a| < |b| && op == Minus ==> (r[m] == c[m] <==> a[m] == 2 * b[m]))
      && (|a| < |b| && op == Plus ==> forall i :: m < i < |b| ==> r[i] == c[i])
      && (|a| < |b| && op == Minus ==> forall i :: m < i < |b| ==> (r[i] == c[i] <==> b[i] == 0))
  {
    var r, c, m := CombineAsWritten(a, b, op), Combine(a, b, op), Min(|a|, |b|) - 1;
    assert forall i :: 0 <= i < |c| ==> c[i] == GetCoeff(c, i);
  }

  /** Concrete instances: [1] + [2] yields [1], and [1] - (2x + 0) yields 2x. */
  lemma CombineAsWrittenCounterexamples()
    ensures CombineAsWritten([1], [2], Plus) == [1] && Add([1], [2]) == [3]
    ensures CombineAsWritten([1], [0, 2], Minus) == [0, 2] && Sub([1], [0, 2]) == [1, -2]
  {
    TopCoefficientDropped();
    TailNotNegated();
  }

  /** Two constants: the as-written sum keeps the left one alone. */
  lemma TopCoefficientDropped()
    ensures CombineAsWritten([1], [2], Plus) == [1] && Add([1], [2]) == [3]
  {
    var p := CombineAsWritten([1], [2], Plus);
    assert p[0] == 1;
    var s := Add([1], [2]);
    assert GetCoeff(s, 0) == 3;
  }

  /** A longer right operand: the as-written difference copies its tail
      without negating it. */
  lemma TailNotNegated()
    ensures CombineAsWritten([1], [0, 2], Minus) == [0, 2] && Sub([1], [0, 2]) == [1, -2]
  {
    ConstantLhsAsWritten([1], [0, 2], Minus);
    var t := Sub([1], [0, 2]);
    assert GetCoeff(t, 0) == 1 && GetCoeff(t, 1) == -2;
  }

  /** With a constant lhs and a longer rhs, the written operators return
      the rhs unchanged: nothing lies below the greatest common term. */
  lemma ConstantLhsAsWritten(a: Poly, b: Poly, op: Op)
    requires |a| == 1 < |b|
    ensures CombineAsWritten(a, b, op) == b
  {
    var r := CombineAsWritten(a, b, op);
    assert forall i :: 0 <= i < |b| ==> r[i] == b[i];
  }

  lemma GetCoeffTail(a: seq<int>, d: int)
    requires d >= 0
    ensures GetCoeff(a, d + 1) == GetCoeff(Tail(a), d)
  {
  }

  lemma EvalUnfold(a: seq<int>, x: int)
    ensures Eval(a, x) == GetCoeff(a, 0) + x * Eval(Tail(a), x)
  {
  }

  /** Evaluation turns the intended operator+ and operator- into integer
      addition and subtraction. */
  lemma {:induction false} EvalCombine(a: seq<int>, b: seq<int>, op: Op, x: int)
    ensures Eval(Combine(a, b, op), x) == Apply(op, Eval(a, x), Eval(b, x))
    decreases |a| + |b|
  {
    var c := Combine(a, b, op);
    if |a| == 0 && |b| == 0 {
      assert c == [];
    } else {
      var ta, tb := Tail(a), Tail(b);
      CombineTail(a, b, op);
      EvalCombine(ta, tb, op, x);
      EvalUnfold(a, x);
      EvalUnfold(b, x);
      assert GetCoeff(c, 0) == c[0];
      ApplyDistributes(op, x, GetCoeff(a, 0), GetCoeff(b, 0), Eval(ta, x), Eval(tb, x));
    }
  }

  /** Dropping the constant term commutes with combining. */
  lemma CombineTail(a: seq<int>, b: seq<int>, op: Op)
    requires |a| > 0 || |b| > 0
    ensures Combine(a, b, op)[1..] == Combine(Tail(a), Tail(b), op)
  {
    var c, tc := Combine(a, b, op), Combine(Tail(a), Tail(b), op);
    forall i | 0 <= i < |tc|
      ensures c[1..][i] == tc[i]
    {
      GetCoeffTail(a, i);
      GetCoeffTail(b, i);
      assert GetCoeff(c, i + 1) == c[i + 1];
      assert GetCoeff(tc, i) == tc[i];
    }
  }

  lemma ApplyDistributes(op: Op, x: int, a0: int, b0: int, ea: int, eb: int)
    ensures Apply(op, a0 + x * ea, b0 + x * eb) == Apply(op, a0, b0) + x * Apply(op, ea, eb)
  {
    match op
    case Plus =>
      assert x * (ea + eb) == x * ea + x * eb;
    case Minus =>
      assert x * (ea - eb) == x * ea - x * eb;
  }

  /** Add and Sub are the polynomial sum and difference. */
  lemma AddSubEval(a: Poly, b: Poly, x: int)
    ensures Eval(Add(a, b), x) == Eval(a, x) + Eval(b, x)
    ensures Eval(Sub(a, b), x) == Eval(a, x) - Eval(b, x)
  {
    EvalCombine(a, b, Plus, x);
    EvalCombine(a, b, Minus, x);
  }

  /* ---------------------------------------------------------------- *
   * operator*
   * ---------------------------------------------------------------- */

  /** Σ_i a_i · b_(k-i): the coefficient of x^k in the product a·b. */
  function Conv(a: seq<int>, b: seq<int>, k: int): int
  {
    if |a| == 0 then 0 else a[0] * GetCoeff(b, k) + Conv(a[1..], b, k - 1)
  }

  function ConvSeq(a: seq<int>, b: seq<int>, len: nat): (r: seq<int>)
    ensures |r| == len
  {
    seq(len, k => Conv(a, b, k))
  }

  /** a * b as intended: |a| + |b| - 1 slots holding the convolution. */
  function Mul(a: Poly, b: Poly): (r: Poly)
    ensures |r| == |a| + |b| - 1
  {
    ConvSeq(a, b, |a| + |b| - 1)
  }

  /** A negative degree, or one past the product's degree, gets nothing. */
  lemma {:induction false} ConvOutside(a: seq<int>, b: seq<int>, k: int)
    requires k < 0 || k >= |a| + |b| - 1
    ensures Conv(a, b, k) == 0
    decreases |a|
  {
    if |a| > 0 {
      ConvOutside(a[1..], b, k - 1);
    }
  }

  /** Appending a term to a adds that term's products to the sum. */
  lemma {:induction false} ConvSnoc(p: seq<int>, v: int, b: seq<int>, k: int)
    ensures Conv(p + [v], b, k) == Conv(p, b, k) + v * GetCoeff(b, k - |p|)
    decreases |p|
  {
    if |p| == 0 {
      assert Conv([v], b, k) == v * GetCoeff(b, k) + Conv([], b, k - 1);
    } else {
      assert (p + [v])[1..] == p[1..] + [v];
      ConvSnoc(p[1..], v, b, k - 1);
    }
  }

  /** operator* as written: a zero-filled result from Poly(EMPTY, |a|+|b|-1),
      then getCoeff/setCoeff accumulation of every product of nonzero terms.
      Poly(c, d) allocates d + 1 slots, so the result has one slot more than
      the product's |a| + |b| - 1 terms; that slot stays EMPTY. */
  method MulAsWritten(a: Poly, b: Poly) returns (r: Poly)
    ensures |r| == |a| + |b|
    ensures forall k :: 0 <= k < |r| ==> r[k] == Conv(a, b, k)
    ensures r == Mul(a, b) + [EMPTY]
  {
    r := Monomial(EMPTY, |a| + |b| - 1);
    var i := 0;
    while i < |a|
      invariant 0 <= i <= |a|
      invariant |r| == |a| + |b|
      invariant forall k :: 0 <= k < |r| ==> r[k] == Conv(a[..i], b, k)
    {
      if GetCoeff(a, i) != 0 {
        var j := 0;
        while j < |b|
          invariant 0 <= j <= |b|
          invariant |r| == |a| + |b|
          invariant forall k :: 0 <= k < |r| ==>
            r[k] == Conv(a[..i], b, k) + (if i <= k < i + j then a[i] * b[k - i] else 0)
        {
          if GetCoeff(b, j) != 0 {
            r := r[i + j := GetCoeff(r, i + j) + GetCoeff(a, i) * GetCoeff(b, j)];
          }
          j := j + 1;
        }
      }
      assert a[..i + 1] == a[..i] + [a[i]];
      forall k | 0 <= k < |r|
        ensures Conv(a[..i + 1], b, k) == Conv(a[..i], b, k) + a[i] * GetCoeff(b, k - i)
      {
        ConvSnoc(a[..i], a[i], b, k);
      }
      i := i + 1;
    }
    assert a[..|a|] == a;
    ConvOutside(a, b, |a| + |b| - 1);
    assert r == Mul(a, b) + [EMPTY];
  }

  /** [1] * [1] as written has two slots, so it is not == to Poly(1). */
  lemma ProductSizeCounterexample()
    ensures Mul([1], [1]) == Constant(1)
    ensures Mul([1], [1]) + [EMPTY] != Constant(1)
  {
    assert Mul([1], [1])[0] == Conv([1], [1], 0);
  }

  /** Evaluating c · b on len >= |b| slots gives c times b's value. */
  lemma {:induction false} EvalScaled(c: int, b: seq<int>, len: nat, x: int)
    requires len >= |b|
    ensures Eval(seq(len, k => c * GetCoeff(b, k)), x) == c * Eval(b, x)
    decreases len
  {
    var s := seq(len, k => c * GetCoeff(b, k));
    if len > 0 {
      var t := seq(len - 1, k => c * GetCoeff(Tail(b), k));
      assert s[1..] == t by {
        forall i | 0 <= i < len - 1
          ensures s[1..][i] == t[i]
        {
          GetCoeffTail(b, i);
        }
      }
      EvalScaled(c, Tail(b), len - 1, x);
      var b0, e := GetCoeff(b, 0), Eval(Tail(b), x);
      assert Eval(s, x) == c * b0 + x * (c * e);
      EvalUnfold(b, x);
      ScaleDistributes(c, b0, x, e);
    }
  }

  lemma ScaleDistributes(c: int, b0: int, x: int, e: int)
    ensures c * b0 + x * (c * e) == c * (b0 + x * e)
  {
    calc {
      c * (b0 + x * e);
      c * b0 + c * (x * e);
      { assert c * (x * e) == x * (c * e); }
      c * b0 + x * (c * e);
    }
  }

  /** The convolution evaluates to the product of the values, on any number
      of slots that holds every term of the product. */
  lemma {:induction false} EvalConvSeq(a: seq<int>, b: seq<int>, len: nat, x: int)
    requires len >= |a| + |b| - 1
    ensures Eval(ConvSeq(a, b, len), x) == Eval(a, x) * Eval(b, x)
    decreases |a|
  {
    var c := ConvSeq(a, b, len);
    if len == 0 {
      assert |a| == 0 || |b| == 0;
    } else if |a| == 0 {
      assert forall k :: 0 <= k < len ==> c[k] == 0;
      EvalZeros(c, x);
    } else {
      var a0, rest := a[0], a[1..];
      var s := seq(len, k => a0 * GetCoeff(b, k));
      var t := seq(len, k => Conv(rest, b, k - 1));
      assert c == Combine(s, t, Plus) by {
        var u := Combine(s, t, Plus);
        forall k | 0 <= k < len
          ensures c[k] == u[k]
        {
          assert GetCoeff(u, k) == u[k];
        }
      }
      EvalCombine(s, t, Plus, x);
      EvalScaled(a0, b, len, x);
      ConvOutside(rest, b, -1);
      assert t[1..] == ConvSeq(rest, b, len - 1);
      EvalConvSeq(rest, b, len - 1, x);
      var er, eb := Eval(rest, x), Eval(b, x);
      assert Eval(t, x) == x * (er * eb);
      assert Eval(c, x) == a0 * eb + x * (er * eb);
      ProductDistributes(a0, x, er, eb);
    }
  }

  lemma ProductDistributes(a0: int, x: int, er: int, eb: int)
    ensures a0 * eb + x * (er * eb) == (a0 + x * er) * eb
  {
    calc {
      (a0 + x * er) * eb;
      a0 * eb + (x * er) * eb;
      { assert (x * er) * eb == x * (er * eb); }
      a0 * eb + x * (er * eb);
    }
  }

  lemma {:induction false} EvalZeros(c: seq<int>, x: int)
    requires forall k :: 0 <= k < |c| ==> c[k] == 0
    ensures Eval(c, x) == 0
    decreases |c|
  {
    if |c| > 0 {
      EvalZeros(c[1..], x);
    }
  }

  /** The intended product is the polynomial product; the written one has
      the same value, one EMPTY slot longer. */
  lemma MulEval(a: Poly, b: Poly, x: int)
    ensures Eval(Mul(a, b), x) == Eval(a, x) * Eval(b, x)
    ensures Eval(Mul(a, b) + [EMPTY], x) == Eval(a, x) * Eval(b, x)
  {
    EvalConvSeq(a, b, |a| + |b| - 1, x);
    EvalConvSeq(a, b, |a| + |b|, x);
    ConvOutside(a, b, |a| + |b| - 1);
    assert Mul(a, b) + [EMPTY] == ConvSeq(a, b, |a| + |b|);
  }

  /* ---------------------------------------------------------------- *
   * operator==, copy, assignment, setCoeff
   * ---------------------------------------------------------------- */

  /** operator==: sizes agree and every coefficient matches. operator!= is
      its negation. */
  method Equal(a: Poly, b: Poly) returns (r: bool)
    ensures r <==> |a| == |b| && forall i :: 0 <= i < |a| ==> a[i] == b[i]
    ensures r <==> a == b
  {
    if |a| != |b| {
      return false;
    }
    var i := 0;
    while i < |a|
      invariant 0 <= i <= |a|
      invariant forall k :: 0 <= k < i ==> a[k] == b[k]
    {
      if GetCoeff(a, i) != GetCoeff(b, i) {
        return false;
      }
      i := i + 1;
    }
    return true;
  }

  /** The copy constructor and operator=: a zero-filled array of the same
      size, then every slot copied through getCoeff. */
  method Copy(p: Poly) returns (r: Poly)
    ensures |r| == |p|
    ensures forall i :: 0 <= i < |p| ==> r[i] == p[i]
  {
    r := Monomial(EMPTY, |p| - 1);
    var i := 0;
    while i < |p|
      invariant 0 <= i <= |p|
      invariant |r| == |p|
      invariant forall k :: 0 <= k < i ==> r[k] == p[k]
    {
      r := r[i := GetCoeff(p, i)];
      i := i + 1;
    }
  }

  /** setCoeff(c, d) as intended: an in-range degree is overwritten; a
      larger one grows the polynomial to d + 1 slots through operator+=
      with Poly(c, d). Every other coefficient is kept. */
  function SetCoeff(p: Poly, c: int, d: nat): (r: Poly)
    ensures |r| == Max(|p|, d + 1)
    ensures r[d] == c
    ensures forall i :: 0 <= i < |r| && i != d ==> r[i] == GetCoeff(p, i)
  {
    if d + 1 > |p| then Add(p, Monomial(c, d)) else p[d := c]
  }

  /** setCoeff(c, d) as written: growth goes through the written operator+,
      which overwrites the old leading slot with Poly(c, d)'s EMPTY. */
  function SetCoeffAsWritten(p: Poly, c: int, d: nat): (r: Poly)
    ensures |r| == Max(|p|, d + 1)
    ensures r[d] == c
    ensures d < |p| ==> forall i :: 0 <= i < |p| && i != d ==> r[i] == p[i]
    ensures d >= |p| ==> forall i :: 0 <= i < |p| - 1 ==> r[i] == p[i]
    ensures d >= |p| ==> forall i :: |p| - 1 <= i < d ==> r[i] == EMPTY
  {
    if d + 1 > |p| then CombineAsWritten(p, Monomial(c, d), Plus) else p[d := c]
  }

  /** Growing [5] with setCoeff(3, 2) loses the constant term 5. */
  lemma SetCoeffGrowthCounterexample()
    ensures SetCoeffAsWritten([5], 3, 2) == [0, 0, 3]
    ensures SetCoeff([5], 3, 2) == [5, 0, 3]
  {
    SetCoeffGrowthWritten();
    SetCoeffGrowthIntended();
  }

  lemma SetCoeffGrowthWritten()
    ensures SetCoeffAsWritten([5], 3, 2) == [0, 0, 3]
  {
    var m := Monomial(3, 2);
    assert m == [0, 0, 3];
    ConstantLhsAsWritten([5], m, Plus);
  }

  lemma SetCoeffGrowthIntended()
    ensures SetCoeff([5], 3, 2) == [5, 0, 3]
  {
    var s := SetCoeff([5], 3, 2);
    assert |s| == 3 && s[2] == 3;
    assert s[0] == 5 && s[1] == 0;
  }

  /** Written and intended setCoeff differ exactly in the old leading slot,
      and only when the polynomial grows. */
  lemma SetCoeffAsWrittenVsIntended(p: Poly, c: int, d: nat)
    ensures d < |p| ==> SetCoeffAsWritten(p, c, d) == SetCoeff(p, c, d)
    ensures d >= |p| ==> SetCoeffAsWritten(p, c, d) == SetCoeff(p, c, d)[|p| - 1 := EMPTY]
  {
    var r, s := SetCoeffAsWritten(p, c, d), SetCoeff(p, c, d);
    if d >= |p| {
      assert forall i :: 0 <= i < |p| - 1 ==> s[i] == p[i];
      assert forall i :: |p| <= i < d ==> s[i] == EMPTY;
    }
  }
}
