/**
 The algebra behind the Strassen engine: dense integer matrices as sequences
 of rows, the classical product, elementwise combination, sub-blocks, and the
 lemmas that make Strassen's seven-product recombination equal to the block
 product.
 */
module Matrix {

  /** A dense matrix, row by row. */
  type Mat = seq<seq<int>>

  /** M has `rows` rows of `cols` entries each. */
  predicate IsMatrix(M: Mat, rows: nat, cols: nat) {
    |M| == rows && forall i :: 0 <= i < rows ==> |M[i]| == cols
  }

  /** The r×r matrix of zeros. */
  function Zero(r: nat): (z: Mat)
    ensures IsMatrix(z, r, r)
    ensures forall i, j :: 0 <= i < r && 0 <= j < r ==> z[i][j] == 0
  {
    seq(r, i => seq(r, j => 0))
  }

  /** The partial inner product of row i of A and column j of B over the first t terms. */
  function Dot(A: Mat, B: Mat, i: nat, j: nat, t: nat): int
    requires i < |A| && t <= |A[i]| && t <= |B|
    requires forall s :: 0 <= s < t ==> j < |B[s]|
  {
    if t == 0 then 0 else Dot(A, B, i, j, t - 1) + A[i][t - 1] * B[t - 1][j]
  }

  /** The classical product of an n×k matrix and a k×m matrix. */
  function Mul(A: Mat, B: Mat, n: nat, k: nat, m: nat): (P: Mat)
    requires IsMatrix(A, n, k) && IsMatrix(B, k, m)
    ensures IsMatrix(P, n, m)
  {
    seq(n, i requires 0 <= i < n => seq(m, j requires 0 <= j < m => Dot(A, B, i, j, k)))
  }

  /** The elementwise combination A + sign·B of two r×r matrices. */
  function Combine(A: Mat, B: Mat, r: nat, sign: int): (C: Mat)
    requires IsMatrix(A, r, r) && IsMatrix(B, r, r)
    ensures IsMatrix(C, r, r)
  {
    seq(r, i requires 0 <= i < r => seq(r, j requires 0 <= j < r => A[i][j] + sign * B[i][j]))
  }

  /** The h×h sub-block of M whose top-left entry is M[ro][co]. */
  function Block(M: Mat, ro: nat, co: nat, h: nat): (Q: Mat)
    requires ro + h <= |M|
    requires forall i :: 0 <= i < |M| ==> co + h <= |M[i]|
    ensures IsMatrix(Q, h, h)
    ensures forall i, j :: 0 <= i < h && 0 <= j < h ==> Q[i][j] == M[ro + i][co + j]
  {
    seq(h, i requires 0 <= i < h => seq(h, j requires 0 <= j < h => M[ro + i][co + j]))
  }

  /** Matrices of one shape with equal entries are equal. */
  lemma EqualEntries(X: Mat, Y: Mat, rows: nat, cols: nat)
    requires IsMatrix(X, rows, cols) && IsMatrix(Y, rows, cols)
    requires forall i, j :: 0 <= i < rows && 0 <= j < cols ==> X[i][j] == Y[i][j]
    ensures X == Y
  {
    assert forall i :: 0 <= i < rows ==> X[i] == Y[i];
  }

  /** Adding a product into a zero accumulator yields the product. */
  lemma CombineZeroLeft(X: Mat, r: nat)
    requires IsMatrix(X, r, r)
    ensures Combine(Zero(r), X, r, 1) == X
  {
    var Y := Combine(Zero(r), X, r, 1);
    assert forall i :: 0 <= i < r ==> Y[i] == X[i];
  }

  /** One term of a combined inner product splits in two. */
  lemma Distribute(pa: int, pb: int, x: int, y: int, d: int, sign: int)
    ensures (pa + sign * pb) + (x + sign * y) * d == (pa + x * d) + sign * (pb + y * d)
    ensures (pa + sign * pb) + d * (x + sign * y) == (pa + d * x) + sign * (pb + d * y)
  {
  }

  /** The inner product is linear in its left operand. */
  lemma {:induction false} DotLinearLeft(A: Mat, B: Mat, D: Mat, r: nat, sign: int, i: nat, j: nat, t: nat)
    requires IsMatrix(A, r, r) && IsMatrix(B, r, r) && IsMatrix(D, r, r)
    requires i < r && j < r && t <= r
    ensures Dot(Combine(A, B, r, sign), D, i, j, t) == Dot(A, D, i, j, t) + sign * Dot(B, D, i, j, t)
  {
    if t > 0 {
      var c := Combine(A, B, r, sign);
      var x, y, d := A[i][t - 1], B[i][t - 1], D[t - 1][j];
      DotLinearLeft(A, B, D, r, sign, i, j, t - 1);
      assert c[i][t - 1] == x + sign * y;
      Distribute(Dot(A, D, i, j, t - 1), Dot(B, D, i, j, t - 1), x, y, d, sign);
    }
  }

  /** The inner product is linear in its right operand. */
  lemma {:induction false} DotLinearRight(D: Mat, A: Mat, B: Mat, r: nat, sign: int, i: nat, j: nat, t: nat)
    requires IsMatrix(A, r, r) && IsMatrix(B, r, r) && IsMatrix(D, r, r)
    requires i < r && j < r && t <= r
    ensures Dot(D, Combine(A, B, r, sign), i, j, t) == Dot(D, A, i, j, t) + sign * Dot(D, B, i, j, t)
  {
    if t > 0 {
      var c := Combine(A, B, r, sign);
      var x, y, d := A[t - 1][j], B[t - 1][j], D[i][t - 1];
      DotLinearRight(D, A, B, r, sign, i, j, t - 1);
      assert c[t - 1][j] == x + sign * y;
      Distribute(Dot(D, A, i, j, t - 1), Dot(D, B, i, j, t - 1), x, y, d, sign);
    }
  }

  /** Inner products that see the same entries are equal. */
  lemma {:induction false} DotAgree(A: Mat, A': Mat, B: Mat, B': Mat, i: nat, j: nat, t: nat)
    requires i < |A| && t <= |A[i]| && t <= |B| && forall s :: 0 <= s < t ==> j < |B[s]|
    requires i < |A'| && t <= |A'[i]| && t <= |B'| && forall s :: 0 <= s < t ==> j < |B'[s]|
    requires forall s :: 0 <= s < t ==> A[i][s] == A'[i][s] && B[s][j] == B'[s][j]
    ensures Dot(A, B, i, j, t) == Dot(A', B', i, j, t)
  {
    if t > 0 {
      DotAgree(A, A', B, B', i, j, t - 1);
    }
  }

  /** Terms whose left factor is zero add nothing: a zero-padded row has the inner product of its unpadded prefix. */
  lemma {:induction false} DotZeroTail(A: Mat, B: Mat, i: nat, j: nat, k: nat, t: nat)
    requires i < |A| && t <= |A[i]| && t <= |B| && forall s :: 0 <= s < t ==> j < |B[s]|
    requires k <= t
    requires forall s :: k <= s < t ==> A[i][s] == 0
    ensures Dot(A, B, i, j, t) == Dot(A, B, i, j, k)
  {
    if t > k {
      DotZeroTail(A, B, i, j, k, t - 1);
    }
  }

  /** The first h terms of a 2h-long inner product come from the left block column of A and the top block row of B. */
  lemma {:induction false} DotFirstHalf(A: Mat, B: Mat, h: nat, ro: nat, co: nat, i: nat, j: nat, t: nat)
    requires IsMatrix(A, 2 * h, 2 * h) && IsMatrix(B, 2 * h, 2 * h)
    requires ro + h <= 2 * h && co + h <= 2 * h && i < h && j < h && t <= h
    ensures Dot(A, B, ro + i, co + j, t) == Dot(Block(A, ro, 0, h), Block(B, 0, co, h), i, j, t)
  {
    if t > 0 {
      DotFirstHalf(A, B, h, ro, co, i, j, t - 1);
    }
  }

  /** The last h terms of a 2h-long inner product come from the right block column of A and the bottom block row of B. */
  lemma {:induction false} DotSecondHalf(A: Mat, B: Mat, h: nat, ro: nat, co: nat, i: nat, j: nat, t: nat)
    requires IsMatrix(A, 2 * h, 2 * h) && IsMatrix(B, 2 * h, 2 * h)
    requires ro + h <= 2 * h && co + h <= 2 * h && i < h && j < h && t <= h
    ensures Dot(A, B, ro + i, co + j, h + t)
         == Dot(A, B, ro + i, co + j, h) + Dot(Block(A, ro, h, h), Block(B, h, co, h), i, j, t)
  {
    if t > 0 {
      DotSecondHalf(A, B, h, ro, co, i, j, t - 1);
    }
  }

  /** One entry of block multiplication: (A×B)[ro+i][co+j] = (A(ro,0)·B(0,co))[i][j] + (A(ro,h)·B(h,co))[i][j]. */
  lemma BlockProductEntry(A: Mat, B: Mat, h: nat, ro: nat, co: nat, i: nat, j: nat)
    requires IsMatrix(A, 2 * h, 2 * h) && IsMatrix(B, 2 * h, 2 * h)
    requires ro + h <= 2 * h && co + h <= 2 * h && i < h && j < h
    ensures Mul(A, B, 2 * h, 2 * h, 2 * h)[ro + i][co + j]
         == Mul(Block(A, ro, 0, h), Block(B, 0, co, h), h, h, h)[i][j]
          + Mul(Block(A, ro, h, h), Block(B, h, co, h), h, h, h)[i][j]
  {
    DotSecondHalf(A, B, h, ro, co, i, j, h);
    DotFirstHalf(A, B, h, ro, co, i, j, h);
  }

  /**
   Block multiplication: the quadrant at (ro, co) of A×B is
   A(ro,0)·B(0,co) + A(ro,h)·B(h,co).
   */
  lemma BlockProduct(A: Mat, B: Mat, h: nat, ro: nat, co: nat)
    requires IsMatrix(A, 2 * h, 2 * h) && IsMatrix(B, 2 * h, 2 * h)
    requires ro == 0 || ro == h
    requires co == 0 || co == h
    ensures Block(Mul(A, B, 2 * h, 2 * h, 2 * h), ro, co, h)
         == Combine(Mul(Block(A, ro, 0, h), Block(B, 0, co, h), h, h, h),
                    Mul(Block(A, ro, h, h), Block(B, h, co, h), h, h, h), h, 1)
  {
    var M1 := Mul(Block(A, ro, 0, h), Block(B, 0, co, h), h, h, h);
    var M2 := Mul(Block(A, ro, h, h), Block(B, h, co, h), h, h, h);
    var lhs, rhs := Block(Mul(A, B, 2 * h, 2 * h, 2 * h), ro, co, h), Combine(M1, M2, h, 1);
    forall i, j | 0 <= i < h && 0 <= j < h
      ensures lhs[i][j] == rhs[i][j]
    {
      BlockProductEntry(A, B, h, ro, co, i, j);
    }
    EqualEntries(lhs, rhs, h, h);
  }

  /** The entries of the 2h×2h matrix with quadrants q11, q12 (top) and q21, q22 (bottom). */
  function GlueEntries(q11: Mat, q12: Mat, q21: Mat, q22: Mat, h: nat): (M: Mat)
    requires IsMatrix(q11, h, h) && IsMatrix(q12, h, h) && IsMatrix(q21, h, h) && IsMatrix(q22, h, h)
    ensures IsMatrix(M, 2 * h, 2 * h)
    ensures forall i, j :: 0 <= i < h && 0 <= j < h ==> M[i][j] == q11[i][j] && M[i][h + j] == q12[i][j]
    ensures forall i, j :: 0 <= i < h && 0 <= j < h ==> M[h + i][j] == q21[i][j] && M[h + i][h + j] == q22[i][j]
  {
    seq(2 * h, i requires 0 <= i < 2 * h => seq(2 * h, j requires 0 <= j < 2 * h =>
      if i < h && j < h then q11[i][j]
      else if i < h then q12[i][j - h]
      else if j < h then q21[i - h][j]
      else q22[i - h][j - h]))
  }

  /** The 2h×2h matrix with quadrants q11, q12 (top) and q21, q22 (bottom). */
  function Glue(q11: Mat, q12: Mat, q21: Mat, q22: Mat, h: nat): (M: Mat)
    requires IsMatrix(q11, h, h) && IsMatrix(q12, h, h) && IsMatrix(q21, h, h) && IsMatrix(q22, h, h)
    ensures IsMatrix(M, 2 * h, 2 * h)
    ensures Block(M, 0, 0, h) == q11 && Block(M, 0, h, h) == q12
    ensures Block(M, h, 0, h) == q21 && Block(M, h, h, h) == q22
  {
    var M := GlueEntries(q11, q12, q21, q22, h);
    EqualEntries(Block(M, 0, 0, h), q11, h, h);
    EqualEntries(Block(M, 0, h, h), q12, h, h);
    EqualEntries(Block(M, h, 0, h), q21, h, h);
    EqualEntries(Block(M, h, h, h), q22, h, h);
    M
  }

  /**
   The combine step of Strassen's algorithm: the 2h×2h matrix whose
   quadrants are P5 + P4 − P2 + P6, P1 + P2, P3 + P4 and P5 + P1 − P3 − P7.
   */
  function StrassenCombine(p1: Mat, p2: Mat, p3: Mat, p4: Mat, p5: Mat, p6: Mat, p7: Mat, h: nat): (c: Mat)
    requires IsMatrix(p1, h, h) && IsMatrix(p2, h, h) && IsMatrix(p3, h, h) && IsMatrix(p4, h, h)
    requires IsMatrix(p5, h, h) && IsMatrix(p6, h, h) && IsMatrix(p7, h, h)
    ensures IsMatrix(c, 2 * h, 2 * h)
  {
    Glue(Combine(Combine(Combine(p5, p4, h, 1), p2, h, -1), p6, h, 1),
         Combine(p1, p2, h, 1),
         Combine(p3, p4, h, 1),
         Combine(Combine(Combine(p5, p1, h, 1), p3, h, -1), p7, h, -1), h)
  }

  /** Two 2h×2h matrices that agree on all four quadrants are equal. */
  lemma QuadrantsDetermine(X: Mat, Y: Mat, h: nat)
    requires IsMatrix(X, 2 * h, 2 * h) && IsMatrix(Y, 2 * h, 2 * h)
    requires Block(X, 0, 0, h) == Block(Y, 0, 0, h)
    requires Block(X, 0, h, h) == Block(Y, 0, h, h)
    requires Block(X, h, 0, h) == Block(Y, h, 0, h)
    requires Block(X, h, h, h) == Block(Y, h, h, h)
    ensures X == Y
  {
    forall i, j | 0 <= i < 2 * h && 0 <= j < 2 * h
      ensures X[i][j] == Y[i][j]
    {
      var ro := if i < h then 0 else h;
      var co := if j < h then 0 else h;
      assert Block(X, ro, co, h)[i - ro][j - co] == Block(Y, ro, co, h)[i - ro][j - co];
    }
    assert forall i :: 0 <= i < 2 * h ==> X[i] == Y[i];
  }

  /** A 2h×2h matrix whose quadrants are q11, q12, q21 and q22 is their glued matrix. */
  lemma GlueDetermined(X: Mat, q11: Mat, q12: Mat, q21: Mat, q22: Mat, h: nat)
    requires IsMatrix(q11, h, h) && IsMatrix(q12, h, h) && IsMatrix(q21, h, h) && IsMatrix(q22, h, h)
    requires IsMatrix(X, 2 * h, 2 * h)
    requires Block(X, 0, 0, h) == q11 && Block(X, 0, h, h) == q12
    requires Block(X, h, 0, h) == q21 && Block(X, h, h, h) == q22
    ensures X == Glue(q11, q12, q21, q22, h)
  {
    QuadrantsDetermine(X, Glue(q11, q12, q21, q22, h), h);
  }

  /** Four matrices that are all h×h. */
  predicate AllSquare(h: nat, M1: Mat, M2: Mat, M3: Mat, M4: Mat) {
    IsMatrix(M1, h, h) && IsMatrix(M2, h, h) && IsMatrix(M3, h, h) && IsMatrix(M4, h, h)
  }

  /** Strassen's top-left quadrant: P5 + P4 − P2 + P6 == A11·B11 + A12·B21. */
  lemma StrassenC11(a11: Mat, a12: Mat, a22: Mat, b11: Mat, b21: Mat, b22: Mat,
                    p2: Mat, p4: Mat, p5: Mat, p6: Mat, h: nat)
    requires AllSquare(h, a11, a12, a22, b11) && IsMatrix(b21, h, h) && IsMatrix(b22, h, h)
    requires p2 == Mul(Combine(a11, a12, h, 1), b22, h, h, h)
    requires p4 == Mul(a22, Combine(b21, b11, h, -1), h, h, h)
    requires p5 == Mul(Combine(a11, a22, h, 1), Combine(b11, b22, h, 1), h, h, h)
    requires p6 == Mul(Combine(a12, a22, h, -1), Combine(b21, b22, h, 1), h, h, h)
    ensures Combine(Combine(Combine(p5, p4, h, 1), p2, h, -1), p6, h, 1)
         == Combine(Mul(a11, b11, h, h, h), Mul(a12, b21, h, h, h), h, 1)
  {
    var lhs := Combine(Combine(Combine(p5, p4, h, 1), p2, h, -1), p6, h, 1);
    var rhs := Combine(Mul(a11, b11, h, h, h), Mul(a12, b21, h, h, h), h, 1);
    forall i, j | 0 <= i < h && 0 <= j < h
      ensures lhs[i][j] == rhs[i][j]
    {
      var s6 := Combine(b11, b22, h, 1);
      DotLinearLeft(a11, a22, s6, h, 1, i, j, h);
      DotLinearRight(a11, b11, b22, h, 1, i, j, h);
      DotLinearRight(a22, b11, b22, h, 1, i, j, h);
      DotLinearRight(a22, b21, b11, h, -1, i, j, h);
      DotLinearLeft(a11, a12, b22, h, 1, i, j, h);
      var s8 := Combine(b21, b22, h, 1);
      DotLinearLeft(a12, a22, s8, h, -1, i, j, h);
      DotLinearRight(a12, b21, b22, h, 1, i, j, h);
      DotLinearRight(a22, b21, b22, h, 1, i, j, h);
    }
    assert forall i :: 0 <= i < h ==> lhs[i] == rhs[i];
  }

  /** Strassen's top-right quadrant: P1 + P2 == A11·B12 + A12·B22. */
  lemma StrassenC12(a11: Mat, a12: Mat, b12: Mat, b22: Mat, p1: Mat, p2: Mat, h: nat)
    requires AllSquare(h, a11, a12, b12, b22)
    requires p1 == Mul(a11, Combine(b12, b22, h, -1), h, h, h)
    requires p2 == Mul(Combine(a11, a12, h, 1), b22, h, h, h)
    ensures Combine(p1, p2, h, 1) == Combine(Mul(a11, b12, h, h, h), Mul(a12, b22, h, h, h), h, 1)
  {
    var lhs := Combine(p1, p2, h, 1);
    var rhs := Combine(Mul(a11, b12, h, h, h), Mul(a12, b22, h, h, h), h, 1);
    forall i, j | 0 <= i < h && 0 <= j < h
      ensures lhs[i][j] == rhs[i][j]
    {
      DotLinearRight(a11, b12, b22, h, -1, i, j, h);
      DotLinearLeft(a11, a12, b22, h, 1, i, j, h);
    }
    assert forall i :: 0 <= i < h ==> lhs[i] == rhs[i];
  }

  /** Strassen's bottom-left quadrant: P3 + P4 == A21·B11 + A22·B21. */
  lemma StrassenC21(a21: Mat, a22: Mat, b11: Mat, b21: Mat, p3: Mat, p4: Mat, h: nat)
    requires AllSquare(h, a21, a22, b11, b21)
    requires p3 == Mul(Combine(a21, a22, h, 1), b11, h, h, h)
    requires p4 == Mul(a22, Combine(b21, b11, h, -1), h, h, h)
    ensures Combine(p3, p4, h, 1) == Combine(Mul(a21, b11, h, h, h), Mul(a22, b21, h, h, h), h, 1)
  {
    var lhs := Combine(p3, p4, h, 1);
    var rhs := Combine(Mul(a21, b11, h, h, h), Mul(a22, b21, h, h, h), h, 1);
    forall i, j | 0 <= i < h && 0 <= j < h
      ensures lhs[i][j] == rhs[i][j]
    {
      DotLinearLeft(a21, a22, b11, h, 1, i, j, h);
      DotLinearRight(a22, b21, b11, h, -1, i, j, h);
    }
    assert forall i :: 0 <= i < h ==> lhs[i] == rhs[i];
  }

  /** Strassen's bottom-right quadrant: P5 + P1 − P3 − P7 == A21·B12 + A22·B22. */
  lemma StrassenC22(a11: Mat, a21: Mat, a22: Mat, b11: Mat, b12: Mat, b22: Mat,
                    p1: Mat, p3: Mat, p5: Mat, p7: Mat, h: nat)
    requires AllSquare(h, a11, a21, a22, b11) && IsMatrix(b12, h, h) && IsMatrix(b22, h, h)
    requires p1 == Mul(a11, Combine(b12, b22, h, -1), h, h, h)
    requires p3 == Mul(Combine(a21, a22, h, 1), b11, h, h, h)
    requires p5 == Mul(Combine(a11, a22, h, 1), Combine(b11, b22, h, 1), h, h, h)
    requires p7 == Mul(Combine(a11, a21, h, -1), Combine(b11, b12, h, 1), h, h, h)
    ensures Combine(Combine(Combine(p5, p1, h, 1), p3, h, -1), p7, h, -1)
         == Combine(Mul(a21, b12, h, h, h), Mul(a22, b22, h, h, h), h, 1)
  {
    var lhs := Combine(Combine(Combine(p5, p1, h, 1), p3, h, -1), p7, h, -1);
    var rhs := Combine(Mul(a21, b12, h, h, h), Mul(a22, b22, h, h, h), h, 1);
    forall i, j | 0 <= i < h && 0 <= j < h
      ensures lhs[i][j] == rhs[i][j]
    {
      var s6 := Combine(b11, b22, h, 1);
      DotLinearLeft(a11, a22, s6, h, 1, i, j, h);
      DotLinearRight(a11, b11, b22, h, 1, i, j, h);
      DotLinearRight(a22, b11, b22, h, 1, i, j, h);
      DotLinearRight(a11, b12, b22, h, -1, i, j, h);
      DotLinearLeft(a21, a22, b11, h, 1, i, j, h);
      var s10 := Combine(b11, b12, h, 1);
      DotLinearLeft(a11, a21, s10, h, -1, i, j, h);
      DotLinearRight(a11, b11, b12, h, 1, i, j, h);
      DotLinearRight(a21, b11, b12, h, 1, i, j, h);
    }
    assert forall i :: 0 <= i < h ==> lhs[i] == rhs[i];
  }

  /**
   One step of Strassen's algorithm is correct: if P1..P7 are the seven
   products of the ten S combinations of the quadrants of a and b, then
   recombining them yields the product a×b.
   */
  lemma StrassenStep(a: Mat, b: Mat, h: nat,
                     p1: Mat, p2: Mat, p3: Mat, p4: Mat, p5: Mat, p6: Mat, p7: Mat)
    requires IsMatrix(a, 2 * h, 2 * h) && IsMatrix(b, 2 * h, 2 * h)
    requires p1 == Mul(Block(a, 0, 0, h), Combine(Block(b, 0, h, h), Block(b, h, h, h), h, -1), h, h, h)
    requires p2 == Mul(Combine(Block(a, 0, 0, h), Block(a, 0, h, h), h, 1), Block(b, h, h, h), h, h, h)
    requires p3 == Mul(Combine(Block(a, h, 0, h), Block(a, h, h, h), h, 1), Block(b, 0, 0, h), h, h, h)
    requires p4 == Mul(Block(a, h, h, h), Combine(Block(b, h, 0, h), Block(b, 0, 0, h), h, -1), h, h, h)
    requires p5 == Mul(Combine(Block(a, 0, 0, h), Block(a, h, h, h), h, 1),
                       Combine(Block(b, 0, 0, h), Block(b, h, h, h), h, 1), h, h, h)
    requires p6 == Mul(Combine(Block(a, 0, h, h), Block(a, h, h, h), h, -1),
                       Combine(Block(b, h, 0, h), Block(b, h, h, h), h, 1), h, h, h)
    requires p7 == Mul(Combine(Block(a, 0, 0, h), Block(a, h, 0, h), h, -1),
                       Combine(Block(b, 0, 0, h), Block(b, 0, h, h), h, 1), h, h, h)
    ensures StrassenCombine(p1, p2, p3, p4, p5, p6, p7, h) == Mul(a, b, 2 * h, 2 * h, 2 * h)
  {
    var a11, a12, a21, a22 := Block(a, 0, 0, h), Block(a, 0, h, h), Block(a, h, 0, h), Block(a, h, h, h);
    var b11, b12, b21, b22 := Block(b, 0, 0, h), Block(b, 0, h, h), Block(b, h, 0, h), Block(b, h, h, h);
    var ab := Mul(a, b, 2 * h, 2 * h, 2 * h);
    StrassenC11(a11, a12, a22, b11, b21, b22, p2, p4, p5, p6, h);
    StrassenC12(a11, a12, b12, b22, p1, p2, h);
    StrassenC21(a21, a22, b11, b21, p3, p4, h);
    StrassenC22(a11, a21, a22, b11, b12, b22, p1, p3, p5, p7, h);
    BlockProduct(a, b, h, 0, 0);
    BlockProduct(a, b, h, 0, h);
    BlockProduct(a, b, h, h, 0);
    BlockProduct(a, b, h, h, h);
    QuadrantsDetermine(StrassenCombine(p1, p2, p3, p4, p5, p6, p7, h), ab, h);
  }

  /** The row-major offset of entry (i, j) in a buffer whose rows hold `cols` entries. */
  function Flat(i: nat, j: nat, cols: nat): nat {
    i * cols + j
  }

  /** Row-major addressing stays inside a rows×cols buffer. */
  lemma FlatIndex(i: nat, j: nat, rows: nat, cols: nat)
    requires i < rows && j < cols
    ensures Flat(i, j, cols) < rows * cols
  {
    assert (i + 1) * cols <= rows * cols;
  }

  /** The rows×cols matrix stored row-major in s. */
  function FromFlat(s: seq<int>, rows: nat, cols: nat): (M: Mat)
    requires rows * cols <= |s|
    ensures IsMatrix(M, rows, cols)
  {
    seq(rows, i requires 0 <= i < rows =>
      seq(cols, j requires 0 <= j < cols => FlatIndex(i, j, rows, cols); s[Flat(i, j, cols)]))
  }

  /** M (rows×cols) in the top-left corner of a size×size matrix of zeros. */
  function Pad(M: Mat, rows: nat, cols: nat, size: nat): (P: Mat)
    requires IsMatrix(M, rows, cols) && rows <= size && cols <= size
    ensures IsMatrix(P, size, size)
  {
    seq(size, i requires 0 <= i < size => seq(size, j requires 0 <= j < size =>
      if i < rows && j < cols then M[i][j] else 0))
  }

  /** The top-left rows×cols corner of M. */
  function Crop(M: Mat, rows: nat, cols: nat): (Q: Mat)
    requires rows <= |M| && forall i :: 0 <= i < rows ==> cols <= |M[i]|
    ensures IsMatrix(Q, rows, cols)
    ensures forall i, j :: 0 <= i < rows && 0 <= j < cols ==> Q[i][j] == M[i][j]
  {
    seq(rows, i requires 0 <= i < rows => M[i][..cols])
  }

  /**
   Zero padding does not change a product: multiplying the padded operands
   and cropping the result to n×m gives the n×k by k×m product.
   */
  lemma PaddedProduct(X: Mat, Y: Mat, n: nat, k: nat, m: nat, size: nat)
    requires IsMatrix(X, n, k) && IsMatrix(Y, k, m)
    requires n <= size && k <= size && m <= size
    ensures Crop(Mul(Pad(X, n, k, size), Pad(Y, k, m, size), size, size, size), n, m) == Mul(X, Y, n, k, m)
  {
    var px, py := Pad(X, n, k, size), Pad(Y, k, m, size);
    var lhs := Crop(Mul(px, py, size, size, size), n, m);
    forall i, j | 0 <= i < n && 0 <= j < m
      ensures lhs[i][j] == Mul(X, Y, n, k, m)[i][j]
    {
      DotZeroTail(px, py, i, j, k, size);
      DotAgree(px, X, py, Y, i, j, k);
    }
    EqualEntries(lhs, Mul(X, Y, n, k, m), n, m);
  }
}
