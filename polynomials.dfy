/** Two-dimensional polynomial transforms.

    A PolynomialTransform of order n holds two (n+1) x (n+1) coefficient
    tables, one per output axis; entry (p, q) multiplies u^p v^q and only the
    entries with p + q <= n take part in the evaluation.

    The package's compose operations (a polynomial followed by an affine
    transform, an affine transform followed by a polynomial) live in files
    that are not part of this model; they are given here a construction of their own
    through sparse monomial lists, and what matters about them is the
    evaluation contract proved in ComposeAffinePolyApply and
    ComposePolyAffineApply. */
module Polynomials {
  import opened Geometry

  function Pow(x: real, n: nat): real
  {
    if n == 0 then 1.0 else x * Pow(x, n - 1)
  }

  lemma {:induction false} PowAdd(x: real, a: nat, b: nat)
    ensures Pow(x, a + b) == Pow(x, a) * Pow(x, b)
  {
    if a > 0 {
      PowAdd(x, a - 1, b);
      assert Pow(x, a + b) == x * Pow(x, a - 1 + b);
    }
  }

  // ---------------------------------------------------------------------------
  // Polynomials are evaluated against the sequence of powers of each variable,
  // k |-> u^k, so that the algebra below only needs the exponent law of that
  // sequence and never the recursive definition of Pow.
  // ---------------------------------------------------------------------------

  type PowerFn = nat -> real

  /** w(a + b) == w(a) * w(b). */
  predicate ExponentLaw(w: PowerFn, a: nat, b: nat)
  {
    w(a + b) == w(a) * w(b)
  }

  /** w is k |-> x^k for some x. */
  ghost predicate IsPowerFn(w: PowerFn)
  {
    w(0) == 1.0 && forall a: nat, b: nat :: ExponentLaw(w, a, b)
  }

  /** The powers of x. */
  function Powers(x: real): PowerFn
  {
    (k: nat) => Pow(x, k)
  }

  lemma PowersIsPowerFn(x: real)
    ensures IsPowerFn(Powers(x))
    ensures Powers(x)(1) == x
  {
    forall a: nat, b: nat ensures ExponentLaw(Powers(x), a, b) {
      PowAdd(x, a, b);
    }
  }

  // ---------------------------------------------------------------------------
  // Sparse polynomials: a list of monomials c * u^p * v^q, summed.
  // ---------------------------------------------------------------------------

  datatype Monomial = Monomial(coeff: real, p: nat, q: nat)

  datatype Sparse = Nil | Cons(head: Monomial, tail: Sparse)

  function MonoEval(m: Monomial, pu: PowerFn, pv: PowerFn): real
  {
    m.coeff * pu(m.p) * pv(m.q)
  }

  function SparseEval(s: Sparse, pu: PowerFn, pv: PowerFn): real
  {
    match s
    case Nil => 0.0
    case Cons(m, r) => MonoEval(m, pu, pv) + SparseEval(r, pu, pv)
  }

  /** Every monomial of s has total degree at most d. */
  predicate DegreeAtMost(s: Sparse, d: nat)
  {
    match s
    case Nil => true
    case Cons(m, r) => m.p + m.q <= d && DegreeAtMost(r, d)
  }

  /** The monomials of a followed by those of b. */
  function Append(a: Sparse, b: Sparse): Sparse
  {
    match a
    case Nil => b
    case Cons(m, r) => Cons(m, Append(r, b))
  }

  lemma {:induction false} AppendEval(a: Sparse, b: Sparse, pu: PowerFn, pv: PowerFn)
    ensures SparseEval(Append(a, b), pu, pv) == SparseEval(a, pu, pv) + SparseEval(b, pu, pv)
  {
    match a
    case Nil =>
    case Cons(m, r) => AppendEval(r, b, pu, pv);
  }

  lemma {:induction false} AppendDegree(a: Sparse, b: Sparse, d: nat)
    requires DegreeAtMost(a, d) && DegreeAtMost(b, d)
    ensures DegreeAtMost(Append(a, b), d)
  {
    match a
    case Nil =>
    case Cons(m, r) => AppendDegree(r, b, d);
  }

  /** k times s. */
  function Scale(k: real, s: Sparse): Sparse
  {
    match s
    case Nil => Nil
    case Cons(m, r) => Cons(Monomial(k * m.coeff, m.p, m.q), Scale(k, r))
  }

  lemma {:induction false} ScaleEval(k: real, s: Sparse, pu: PowerFn, pv: PowerFn)
    ensures SparseEval(Scale(k, s), pu, pv) == k * SparseEval(s, pu, pv)
  {
    match s
    case Nil =>
    case Cons(m, r) =>
      ScaleEval(k, r, pu, pv);
      var a, b := pu(m.p), pv(m.q);
      assert (k * m.coeff) * a * b == k * (m.coeff * a * b);
  }

  lemma {:induction false} ScaleDegree(k: real, s: Sparse, d: nat)
    requires DegreeAtMost(s, d)
    ensures DegreeAtMost(Scale(k, s), d)
  {
    match s
    case Nil =>
    case Cons(m, r) => ScaleDegree(k, r, d);
  }

  function MonoProduct(m: Monomial, n: Monomial): Monomial
  {
    Monomial(m.coeff * n.coeff, m.p + n.p, m.q + n.q)
  }

  lemma MonoProductEval(m: Monomial, n: Monomial, pu: PowerFn, pv: PowerFn)
    requires IsPowerFn(pu) && IsPowerFn(pv)
    ensures MonoEval(MonoProduct(m, n), pu, pv) == MonoEval(m, pu, pv) * MonoEval(n, pu, pv)
  {
    assert ExponentLaw(pu, m.p, n.p) && ExponentLaw(pv, m.q, n.q);
    var a, b, c := pu(m.p), pv(m.q), m.coeff;
    var a', b', c' := pu(n.p), pv(n.q), n.coeff;
    assert (c * c') * (a * a') * (b * b') == (c * a * b) * (c' * a' * b');
  }

  /** m times every monomial of s. */
  function MulMono(m: Monomial, s: Sparse): Sparse
  {
    match s
    case Nil => Nil
    case Cons(n, r) => Cons(MonoProduct(m, n), MulMono(m, r))
  }

  lemma {:induction false} MulMonoEval(m: Monomial, s: Sparse, pu: PowerFn, pv: PowerFn)
    requires IsPowerFn(pu) && IsPowerFn(pv)
    ensures SparseEval(MulMono(m, s), pu, pv) == MonoEval(m, pu, pv) * SparseEval(s, pu, pv)
  {
    match s
    case Nil =>
    case Cons(n, r) =>
      MulMonoEval(m, r, pu, pv);
      MonoProductEval(m, n, pu, pv);
  }

  lemma {:induction false} MulMonoDegree(m: Monomial, s: Sparse, d: nat)
    requires DegreeAtMost(s, d)
    ensures DegreeAtMost(MulMono(m, s), m.p + m.q + d)
  {
    match s
    case Nil =>
    case Cons(n, r) => MulMonoDegree(m, r, d);
  }

  /** The product of two sparse polynomials. */
  function Mul(a: Sparse, b: Sparse): Sparse
  {
    match a
    case Nil => Nil
    case Cons(m, r) => Append(MulMono(m, b), Mul(r, b))
  }

  lemma {:induction false} MulEval(a: Sparse, b: Sparse, pu: PowerFn, pv: PowerFn)
    requires IsPowerFn(pu) && IsPowerFn(pv)
    ensures SparseEval(Mul(a, b), pu, pv) == SparseEval(a, pu, pv) * SparseEval(b, pu, pv)
  {
    match a
    case Nil =>
    case Cons(m, r) =>
      AppendEval(MulMono(m, b), Mul(r, b), pu, pv);
      MulMonoEval(m, b, pu, pv);
      MulEval(r, b, pu, pv);
  }

  lemma {:induction false} DegreeMono(s: Sparse, d: nat, e: nat)
    requires DegreeAtMost(s, d) && d <= e
    ensures DegreeAtMost(s, e)
  {
    match s
    case Nil =>
    case Cons(m, r) => DegreeMono(r, d, e);
  }

  lemma {:induction false} MulDegree(a: Sparse, b: Sparse, da: nat, db: nat)
    requires DegreeAtMost(a, da) && DegreeAtMost(b, db)
    ensures DegreeAtMost(Mul(a, b), da + db)
  {
    match a
    case Nil =>
    case Cons(m, r) =>
      MulDegree(r, b, da, db);
      MulMonoDegree(m, b, db);
      DegreeMono(MulMono(m, b), m.p + m.q + db, da + db);
      AppendDegree(MulMono(m, b), Mul(r, b), da + db);
  }

  /** The n-th power of s. */
  function PowSparse(s: Sparse, n: nat): Sparse
  {
    if n == 0 then Cons(Monomial(1.0, 0, 0), Nil) else Mul(s, PowSparse(s, n - 1))
  }

  /** PowSparse(s, n) evaluates to w(n) for the powers w of the value of s. */
  lemma {:induction false} PowSparseEval(s: Sparse, n: nat, pu: PowerFn, pv: PowerFn, w: PowerFn)
    requires IsPowerFn(pu) && IsPowerFn(pv)
    requires IsPowerFn(w) && w(1) == SparseEval(s, pu, pv)
    ensures SparseEval(PowSparse(s, n), pu, pv) == w(n)
  {
    if n > 0 {
      MulEval(s, PowSparse(s, n - 1), pu, pv);
      PowSparseEval(s, n - 1, pu, pv, w);
      assert ExponentLaw(w, 1, n - 1);
    }
  }

  lemma {:induction false} PowSparseDegree(s: Sparse, n: nat)
    requires DegreeAtMost(s, 1)
    ensures DegreeAtMost(PowSparse(s, n), n)
  {
    if n > 0 {
      PowSparseDegree(s, n - 1);
      MulDegree(s, PowSparse(s, n - 1), 1, n - 1);
    }
  }

  /** The monomial m with u replaced by x(u, v) and v replaced by y(u, v). */
  function SubstituteMono(m: Monomial, x: Sparse, y: Sparse): Sparse
  {
    Scale(m.coeff, Mul(PowSparse(x, m.p), PowSparse(y, m.q)))
  }

  lemma ScaledProductEval(m: Monomial, a: Sparse, b: Sparse, pu: PowerFn, pv: PowerFn, wx: PowerFn, wy: PowerFn)
    requires IsPowerFn(pu) && IsPowerFn(pv)
    requires SparseEval(a, pu, pv) == wx(m.p) && SparseEval(b, pu, pv) == wy(m.q)
    ensures SparseEval(Scale(m.coeff, Mul(a, b)), pu, pv) == MonoEval(m, wx, wy)
  {
    ScaleEval(m.coeff, Mul(a, b), pu, pv);
    MulEval(a, b, pu, pv);
    var c, ea, eb := m.coeff, wx(m.p), wy(m.q);
    assert c * (ea * eb) == c * ea * eb;
  }

  lemma SubstituteMonoEval(m: Monomial, x: Sparse, y: Sparse, pu: PowerFn, pv: PowerFn, wx: PowerFn, wy: PowerFn)
    requires IsPowerFn(pu) && IsPowerFn(pv)
    requires IsPowerFn(wx) && wx(1) == SparseEval(x, pu, pv)
    requires IsPowerFn(wy) && wy(1) == SparseEval(y, pu, pv)
    ensures SparseEval(SubstituteMono(m, x, y), pu, pv) == MonoEval(m, wx, wy)
  {
    PowSparseEval(x, m.p, pu, pv, wx);
    PowSparseEval(y, m.q, pu, pv, wy);
    ScaledProductEval(m, PowSparse(x, m.p), PowSparse(y, m.q), pu, pv, wx, wy);
  }

  /** s with u replaced by x(u, v) and v replaced by y(u, v). */
  function Substitute(s: Sparse, x: Sparse, y: Sparse): Sparse
  {
    match s
    case Nil => Nil
    case Cons(m, r) => Append(SubstituteMono(m, x, y), Substitute(r, x, y))
  }

  /** Substituting x and y for the variables of s and evaluating equals
      evaluating s at the values of x and y, whose powers are wx and wy. */
  lemma {:induction false} SubstituteEval(s: Sparse, x: Sparse, y: Sparse, pu: PowerFn, pv: PowerFn, wx: PowerFn, wy: PowerFn)
    requires IsPowerFn(pu) && IsPowerFn(pv)
    requires IsPowerFn(wx) && wx(1) == SparseEval(x, pu, pv)
    requires IsPowerFn(wy) && wy(1) == SparseEval(y, pu, pv)
    ensures SparseEval(Substitute(s, x, y), pu, pv) == SparseEval(s, wx, wy)
  {
    match s
    case Nil =>
    case Cons(m, r) =>
      AppendEval(SubstituteMono(m, x, y), Substitute(r, x, y), pu, pv);
      SubstituteMonoEval(m, x, y, pu, pv, wx, wy);
      SubstituteEval(r, x, y, pu, pv, wx, wy);
  }

  lemma ScaledProductDegree(c: real, a: Sparse, b: Sparse, da: nat, db: nat, d: nat)
    requires DegreeAtMost(a, da) && DegreeAtMost(b, db) && da + db <= d
    ensures DegreeAtMost(Scale(c, Mul(a, b)), d)
  {
    MulDegree(a, b, da, db);
    DegreeMono(Mul(a, b), da + db, d);
    ScaleDegree(c, Mul(a, b), d);
  }

  lemma SubstituteMonoDegree(m: Monomial, x: Sparse, y: Sparse, d: nat)
    requires m.p + m.q <= d && DegreeAtMost(x, 1) && DegreeAtMost(y, 1)
    ensures DegreeAtMost(SubstituteMono(m, x, y), d)
  {
    PowSparseDegree(x, m.p);
    PowSparseDegree(y, m.q);
    ScaledProductDegree(m.coeff, PowSparse(x, m.p), PowSparse(y, m.q), m.p, m.q, d);
  }

  lemma {:induction false} SubstituteDegree(s: Sparse, x: Sparse, y: Sparse, d: nat)
    requires DegreeAtMost(s, d) && DegreeAtMost(x, 1) && DegreeAtMost(y, 1)
    ensures DegreeAtMost(Substitute(s, x, y), d)
  {
    match s
    case Nil =>
    case Cons(m, r) =>
      SubstituteMonoDegree(m, x, y, d);
      SubstituteDegree(r, x, y, d);
      AppendDegree(SubstituteMono(m, x, y), Substitute(r, x, y), d);
  }

  /** The monomials of a * u + b * v + c. */
  function AffineTerms(a: real, b: real, c: real): (s: Sparse)
    ensures DegreeAtMost(s, 1)
  {
    var s2 := Cons(Monomial(c, 0, 0), Nil);
    assert DegreeAtMost(s2, 1);
    Cons(Monomial(a, 1, 0), Cons(Monomial(b, 0, 1), s2))
  }

  lemma AffineTermsEval(a: real, b: real, c: real, u: real, v: real)
    ensures SparseEval(AffineTerms(a, b, c), Powers(u), Powers(v)) == a * u + b * v + c
  {
    PowersIsPowerFn(u);
    PowersIsPowerFn(v);
    var pu, pv := Powers(u), Powers(v);
    var s2 := Cons(Monomial(c, 0, 0), Nil);
    var s1 := Cons(Monomial(b, 0, 1), s2);
    assert SparseEval(s2, pu, pv) == c;
    assert SparseEval(s1, pu, pv) == b * v + c;
  }

  // ---------------------------------------------------------------------------
  // Dense coefficient tables.
  // ---------------------------------------------------------------------------

  type Table = seq<seq<real>>

  /** t is an (n+1) x (n+1) table. */
  predicate IsTable(t: Table, n: nat)
  {
    |t| == n + 1 && forall p :: 0 <= p < |t| ==> |t[p]| == n + 1
  }

  /** Sum of row[q] * v^q for q < m. */
  function RowEval(row: seq<real>, m: nat, pv: PowerFn): real
    requires m <= |row|
  {
    if m == 0 then 0.0 else RowEval(row, m - 1, pv) + row[m - 1] * pv(m - 1)
  }

  /** Sum of t[p][q] * u^p * v^q over p < k and p + q <= n. */
  function TableEvalUpTo(t: Table, n: nat, k: nat, pu: PowerFn, pv: PowerFn): real
    requires IsTable(t, n) && k <= n + 1
  {
    if k == 0 then 0.0
    else TableEvalUpTo(t, n, k - 1, pu, pv) + pu(k - 1) * RowEval(t[k - 1], n + 1 - (k - 1), pv)
  }

  /** Sum of t[p][q] * u^p * v^q over p + q <= n. */
  function TableEval(t: Table, n: nat, pu: PowerFn, pv: PowerFn): real
    requires IsTable(t, n)
  {
    TableEvalUpTo(t, n, n + 1, pu, pv)
  }

  /** t with delta added to entry (p, q); every other entry and the shape are unchanged. */
  function AddAt(t: Table, p: nat, q: nat, delta: real): (r: Table)
    requires p < |t| && q < |t[p]|
    ensures |r| == |t| && forall i :: 0 <= i < |r| ==> |r[i]| == |t[i]|
    ensures r[p][q] == t[p][q] + delta
    ensures forall i, j :: 0 <= i < |r| && 0 <= j < |r[i]| && (i, j) != (p, q) ==> r[i][j] == t[i][j]
  {
    t[p := t[p][q := t[p][q] + delta]]
  }

  lemma {:induction false} RowEvalAddAt(row: seq<real>, q: nat, delta: real, m: nat, pv: PowerFn)
    requires q < |row| && m <= |row|
    ensures RowEval(row[q := row[q] + delta], m, pv)
         == RowEval(row, m, pv) + (if q < m then delta * pv(q) else 0.0)
  {
    if m > 0 {
      RowEvalAddAt(row, q, delta, m - 1, pv);
    }
  }

  lemma {:induction false} TableEvalUpToAddAt(t: Table, n: nat, p: nat, q: nat, delta: real, k: nat, pu: PowerFn, pv: PowerFn)
    requires IsTable(t, n) && p <= n && q <= n && k <= n + 1
    ensures IsTable(AddAt(t, p, q, delta), n)
    ensures TableEvalUpTo(AddAt(t, p, q, delta), n, k, pu, pv)
         == TableEvalUpTo(t, n, k, pu, pv)
            + (if p < k && p + q <= n then delta * pu(p) * pv(q) else 0.0)
  {
    var r := AddAt(t, p, q, delta);
    if k > 0 {
      TableEvalUpToAddAt(t, n, p, q, delta, k - 1, pu, pv);
      var m := n + 1 - (k - 1);
      if k - 1 == p {
        RowEvalAddAt(t[p], q, delta, m, pv);
        var a, b := RowEval(t[p], m, pv), (if q < m then delta * pv(q) else 0.0);
        assert pu(p) * (a + b) == pu(p) * a + pu(p) * b;
      } else {
        assert r[k - 1] == t[k - 1];
      }
    }
  }

  /** Adding delta to entry (p, q) changes the value by delta * u^p * v^q when
      p + q is within the order, and not at all otherwise. */
  lemma TableEvalAddAt(t: Table, n: nat, p: nat, q: nat, delta: real, pu: PowerFn, pv: PowerFn)
    requires IsTable(t, n) && p <= n && q <= n
    ensures IsTable(AddAt(t, p, q, delta), n)
    ensures TableEval(AddAt(t, p, q, delta), n, pu, pv)
         == TableEval(t, n, pu, pv) + (if p + q <= n then delta * pu(p) * pv(q) else 0.0)
  {
    TableEvalUpToAddAt(t, n, p, q, delta, n + 1, pu, pv);
  }

  function ZeroTable(n: nat): (t: Table)
    ensures IsTable(t, n)
    ensures forall p, q :: 0 <= p <= n && 0 <= q <= n ==> t[p][q] == 0.0
  {
    seq(n + 1, _ => seq(n + 1, _ => 0.0))
  }

  lemma {:induction false} RowEvalZero(row: seq<real>, m: nat, pv: PowerFn)
    requires m <= |row| && forall q :: 0 <= q < |row| ==> row[q] == 0.0
    ensures RowEval(row, m, pv) == 0.0
  {
    if m > 0 { RowEvalZero(row, m - 1, pv); }
  }

  lemma {:induction false} TableEvalUpToZero(n: nat, k: nat, pu: PowerFn, pv: PowerFn)
    requires k <= n + 1
    ensures TableEvalUpTo(ZeroTable(n), n, k, pu, pv) == 0.0
  {
    if k > 0 {
      TableEvalUpToZero(n, k - 1, pu, pv);
      RowEvalZero(ZeroTable(n)[k - 1], n + 1 - (k - 1), pv);
    }
  }

  /** The (n+1) x (n+1) table of a sparse polynomial of degree at most n:
      each monomial's coefficient is added into its (p, q) entry. */
  function ToTable(s: Sparse, n: nat): (t: Table)
    requires DegreeAtMost(s, n)
    ensures IsTable(t, n)
  {
    match s
    case Nil => ZeroTable(n)
    case Cons(m, r) => AddAt(ToTable(r, n), m.p, m.q, m.coeff)
  }

  lemma {:induction false} ToTableEval(s: Sparse, n: nat, pu: PowerFn, pv: PowerFn)
    requires DegreeAtMost(s, n)
    ensures TableEval(ToTable(s, n), n, pu, pv) == SparseEval(s, pu, pv)
  {
    match s
    case Nil =>
      TableEvalUpToZero(n, n + 1, pu, pv);
    case Cons(m, r) =>
      ToTableEval(r, n, pu, pv);
      TableEvalAddAt(ToTable(r, n), n, m.p, m.q, m.coeff, pu, pv);
  }

  /** The monomials row[q] * u^p * v^q for q < m. */
  function RowTerms(row: seq<real>, p: nat, m: nat): Sparse
    requires m <= |row|
  {
    if m == 0 then Nil else Append(RowTerms(row, p, m - 1), Cons(Monomial(row[m - 1], p, m - 1), Nil))
  }

  lemma {:induction false} RowTermsEval(row: seq<real>, p: nat, m: nat, pu: PowerFn, pv: PowerFn)
    requires m <= |row|
    ensures SparseEval(RowTerms(row, p, m), pu, pv) == pu(p) * RowEval(row, m, pv)
  {
    if m > 0 {
      var last := Monomial(row[m - 1], p, m - 1);
      AppendEval(RowTerms(row, p, m - 1), Cons(last, Nil), pu, pv);
      RowTermsEval(row, p, m - 1, pu, pv);
      var a, b, c, d := RowEval(row, m - 1, pv), row[m - 1], pu(p), pv(m - 1);
      assert c * (a + b * d) == c * a + b * c * d;
    }
  }

  lemma {:induction false} RowTermsDegree(row: seq<real>, p: nat, m: nat, d: nat)
    requires m <= |row| && p + m <= d + 1
    ensures DegreeAtMost(RowTerms(row, p, m), d)
  {
    if m > 0 {
      RowTermsDegree(row, p, m - 1, d);
      AppendDegree(RowTerms(row, p, m - 1), Cons(Monomial(row[m - 1], p, m - 1), Nil), d);
    }
  }

  /** The monomials of TableEvalUpTo(t, n, k, _, _). */
  function TableTerms(t: Table, n: nat, k: nat): Sparse
    requires IsTable(t, n) && k <= n + 1
  {
    if k == 0 then Nil else Append(TableTerms(t, n, k - 1), RowTerms(t[k - 1], k - 1, n + 1 - (k - 1)))
  }

  lemma {:induction false} TableTermsEval(t: Table, n: nat, k: nat, pu: PowerFn, pv: PowerFn)
    requires IsTable(t, n) && k <= n + 1
    ensures SparseEval(TableTerms(t, n, k), pu, pv) == TableEvalUpTo(t, n, k, pu, pv)
  {
    if k > 0 {
      AppendEval(TableTerms(t, n, k - 1), RowTerms(t[k - 1], k - 1, n + 1 - (k - 1)), pu, pv);
      TableTermsEval(t, n, k - 1, pu, pv);
      RowTermsEval(t[k - 1], k - 1, n + 1 - (k - 1), pu, pv);
    }
  }

  lemma {:induction false} TableTermsDegree(t: Table, n: nat, k: nat)
    requires IsTable(t, n) && k <= n + 1
    ensures DegreeAtMost(TableTerms(t, n, k), n)
  {
    if k > 0 {
      TableTermsDegree(t, n, k - 1);
      RowTermsDegree(t[k - 1], k - 1, n + 1 - (k - 1), n);
      AppendDegree(TableTerms(t, n, k - 1), RowTerms(t[k - 1], k - 1, n + 1 - (k - 1)), n);
    }
  }

  /** The monomials of a table of order n, each of degree at most n. */
  function ToSparse(t: Table, n: nat): (s: Sparse)
    requires IsTable(t, n)
    ensures DegreeAtMost(s, n)
  {
    TableTermsDegree(t, n, n + 1);
    TableTerms(t, n, n + 1)
  }

  lemma ToSparseEval(t: Table, n: nat, pu: PowerFn, pv: PowerFn)
    requires IsTable(t, n)
    ensures SparseEval(ToSparse(t, n), pu, pv) == TableEval(t, n, pu, pv)
  {
    TableTermsEval(t, n, n + 1, pu, pv);
  }

  // ---------------------------------------------------------------------------
  // Polynomial transforms and their composition with affine transforms.
  // ---------------------------------------------------------------------------

  datatype PolynomialTransform = PolynomialTransform(order: nat, xCoeffs: Table, yCoeffs: Table)

  predicate WellFormed(f: PolynomialTransform)
  {
    IsTable(f.xCoeffs, f.order) && IsTable(f.yCoeffs, f.order)
  }

  /** (Sum xCoeffs[p][q] u^p v^q, Sum yCoeffs[p][q] u^p v^q) over p + q <= order. */
  function PolyApply(f: PolynomialTransform, uv: Point2): Point2
    requires WellFormed(f)
  {
    var pu, pv := Powers(uv.x), Powers(uv.y);
    Point2(TableEval(f.xCoeffs, f.order, pu, pv), TableEval(f.yCoeffs, f.order, pu, pv))
  }

  /** One output table of compose(f, a): the table t of order n with its
      variables replaced by the two rows of a. */
  function SubstituteAffine(t: Table, n: nat, a: AffineTransform): (r: Table)
    requires IsTable(t, n)
    ensures IsTable(r, n)
  {
    var l, c := a.linear, a.translation;
    var x, y := AffineTerms(l.m00, l.m01, c.x), AffineTerms(l.m10, l.m11, c.y);
    SubstituteDegree(ToSparse(t, n), x, y, n);
    ToTable(Substitute(ToSparse(t, n), x, y), n)
  }

  lemma SubstituteAffineEval(t: Table, n: nat, a: AffineTransform, uv: Point2)
    requires IsTable(t, n)
    ensures TableEval(SubstituteAffine(t, n, a), n, Powers(uv.x), Powers(uv.y))
         == TableEval(t, n, Powers(AffineApply(a, uv).x), Powers(AffineApply(a, uv).y))
  {
    var l, c := a.linear, a.translation;
    var x, y := AffineTerms(l.m00, l.m01, c.x), AffineTerms(l.m10, l.m11, c.y);
    var s, au := ToSparse(t, n), AffineApply(a, uv);
    var pu, pv := Powers(uv.x), Powers(uv.y);
    SubstituteDegree(s, x, y, n);
    ToTableEval(Substitute(s, x, y), n, pu, pv);
    PowersIsPowerFn(uv.x);
    PowersIsPowerFn(uv.y);
    PowersIsPowerFn(au.x);
    PowersIsPowerFn(au.y);
    AffineTermsEval(l.m00, l.m01, c.x, uv.x, uv.y);
    AffineTermsEval(l.m10, l.m11, c.y, uv.x, uv.y);
    SubstituteEval(s, x, y, pu, pv, Powers(au.x), Powers(au.y));
    ToSparseEval(t, n, Powers(au.x), Powers(au.y));
  }

  /** compose(f, a): the polynomial transform x |-> f(a(x)), of the same order as f. */
  function ComposePolyAffine(f: PolynomialTransform, a: AffineTransform): (r: PolynomialTransform)
    requires WellFormed(f)
    ensures WellFormed(r) && r.order == f.order
  {
    PolynomialTransform(f.order, SubstituteAffine(f.xCoeffs, f.order, a), SubstituteAffine(f.yCoeffs, f.order, a))
  }

  lemma ComposePolyAffineApply(f: PolynomialTransform, a: AffineTransform, uv: Point2)
    requires WellFormed(f)
    ensures PolyApply(ComposePolyAffine(f, a), uv) == PolyApply(f, AffineApply(a, uv))
  {
    SubstituteAffineEval(f.xCoeffs, f.order, a, uv);
    SubstituteAffineEval(f.yCoeffs, f.order, a, uv);
  }

  /** The monomials of a0 * X + a1 * Y + c, where X and Y are tables of order n. */
  function LinearCombination(a0: real, a1: real, c: real, x: Table, y: Table, n: nat): (s: Sparse)
    requires IsTable(x, n) && IsTable(y, n)
    ensures DegreeAtMost(s, n)
  {
    var sx, sy := ToSparse(x, n), ToSparse(y, n);
    ScaleDegree(a0, sx, n);
    ScaleDegree(a1, sy, n);
    AppendDegree(Scale(a1, sy), Cons(Monomial(c, 0, 0), Nil), n);
    AppendDegree(Scale(a0, sx), Append(Scale(a1, sy), Cons(Monomial(c, 0, 0), Nil)), n);
    Append(Scale(a0, sx), Append(Scale(a1, sy), Cons(Monomial(c, 0, 0), Nil)))
  }

  lemma LinearCombinationEval(a0: real, a1: real, c: real, x: Table, y: Table, n: nat, pu: PowerFn, pv: PowerFn)
    requires IsTable(x, n) && IsTable(y, n) && IsPowerFn(pu) && IsPowerFn(pv)
    ensures SparseEval(LinearCombination(a0, a1, c, x, y, n), pu, pv)
         == a0 * TableEval(x, n, pu, pv) + a1 * TableEval(y, n, pu, pv) + c
  {
    var sx, sy := ToSparse(x, n), ToSparse(y, n);
    AppendEval(Scale(a0, sx), Append(Scale(a1, sy), Cons(Monomial(c, 0, 0), Nil)), pu, pv);
    AppendEval(Scale(a1, sy), Cons(Monomial(c, 0, 0), Nil), pu, pv);
    ScaleEval(a0, sx, pu, pv);
    ScaleEval(a1, sy, pu, pv);
    ToSparseEval(x, n, pu, pv);
    ToSparseEval(y, n, pu, pv);
  }

  /** compose(a, f): the polynomial transform x |-> a(f(x)), of the same order as f. */
  function ComposeAffinePoly(a: AffineTransform, f: PolynomialTransform): (r: PolynomialTransform)
    requires WellFormed(f)
    ensures WellFormed(r) && r.order == f.order
  {
    var n, l, t := f.order, a.linear, a.translation;
    PolynomialTransform(n,
      ToTable(LinearCombination(l.m00, l.m01, t.x, f.xCoeffs, f.yCoeffs, n), n),
      ToTable(LinearCombination(l.m10, l.m11, t.y, f.xCoeffs, f.yCoeffs, n), n))
  }

  lemma ComposeAffinePolyApply(a: AffineTransform, f: PolynomialTransform, uv: Point2)
    requires WellFormed(f)
    ensures PolyApply(ComposeAffinePoly(a, f), uv) == AffineApply(a, PolyApply(f, uv))
  {
    var n, l, t := f.order, a.linear, a.translation;
    var cx := LinearCombination(l.m00, l.m01, t.x, f.xCoeffs, f.yCoeffs, n);
    var cy := LinearCombination(l.m10, l.m11, t.y, f.xCoeffs, f.yCoeffs, n);
    var pu, pv := Powers(uv.x), Powers(uv.y);
    PowersIsPowerFn(uv.x);
    PowersIsPowerFn(uv.y);
    ToTableEval(cx, n, pu, pv);
    ToTableEval(cy, n, pu, pv);
    LinearCombinationEval(l.m00, l.m01, t.x, f.xCoeffs, f.yCoeffs, n, pu, pv);
    LinearCombinationEval(l.m10, l.m11, t.y, f.xCoeffs, f.yCoeffs, n, pu, pv);
  }

  /** A polynomial transform between two affine scalings:
      x |-> outputScalingInverse(poly(inputScaling(x))). */
  datatype ScaledPolynomialTransform = ScaledPolynomialTransform(
    poly: PolynomialTransform,
    inputScaling: AffineTransform,
    outputScalingInverse: AffineTransform)

  function ScaledApply(s: ScaledPolynomialTransform, p: Point2): Point2
    requires WellFormed(s.poly)
  {
    AffineApply(s.outputScalingInverse, PolyApply(s.poly, AffineApply(s.inputScaling, p)))
  }
}
