/**
 The Strassen matrix-multiplication engine of bin/main.c over integer
 entries. Engine-owned square buffers are `array2<int>`; every operand is a
 view (buffer, row offset, column offset, size) into such a buffer, read
 with the buffer's own row stride. This is the quadrant addressing the
 algorithm intends; the offsets the quadrant macro computes agree with it
 only when the matrix being split is a whole buffer (see the Addressing
 module).
 */
module Strassen {
  import opened Matrix

  /** p is a power of two. */
  predicate IsPow2(p: int)
    decreases if p < 1 then 0 else p
  {
    p == 1 || (p > 1 && p % 2 == 0 && IsPow2(p / 2))
  }

  /** A power of two above 1 is twice a power of two. */
  lemma HalfOfPow2(p: int)
    requires IsPow2(p) && p > 1
    ensures p == 2 * (p / 2) && IsPow2(p / 2)
  {
  }

  /** Of two powers of two, the smaller is at most half of the larger. */
  lemma {:induction false} Pow2Below(q: int, p: int)
    requires IsPow2(q) && IsPow2(p) && q < p
    ensures q <= p / 2
  {
    if q > 1 {
      Pow2Below(q / 2, p / 2);
    }
  }

  /**
   next_pow2: the least power of two that is at least x. The C code doubles
   an `int`, so x is bounded to keep the doubling from overflowing.
   */
  method NextPow2(x: int) returns (p: int)
    requires x <= 0x4000_0000
    ensures IsPow2(p) && x <= p
    ensures p == 1 || p / 2 < x
    ensures forall q :: IsPow2(q) && x <= q ==> p <= q
  {
    p := 1;
    while p < x
      invariant IsPow2(p) && (p == 1 || p / 2 < x)
      decreases x - p
    {
      p := p * 2;
    }
    forall q | IsPow2(q) && x <= q
      ensures p <= q
    {
      if q < p {
        Pow2Below(q, p);
      }
    }
  }

  /** The r×r view at (ro, co) lies inside the buffer. */
  predicate InBounds(a: array2<int>, ro: nat, co: nat, r: nat) {
    ro + r <= a.Length0 && co + r <= a.Length1
  }

  /** The w×w square at (ro, co) and the r×r square at (cr, cc) share no entry. */
  predicate Disjoint(ro: nat, co: nat, w: nat, cr: nat, cc: nat, r: nat) {
    ro + w <= cr || cr + r <= ro || co + w <= cc || cc + r <= co
  }

  /** The r×r matrix seen through the view at (ro, co) of buffer a. */
  function ViewOf(a: array2<int>, ro: nat, co: nat, r: nat): (M: Mat)
    requires InBounds(a, ro, co, r)
    reads a
    ensures IsMatrix(M, r, r)
    ensures forall i, j :: 0 <= i < r && 0 <= j < r ==> M[i][j] == a[ro + i, co + j]
  {
    Rows(a, ro, co, r, r)
  }

  /** The first n rows, each of width w, of the view of a at (ro, co). */
  function Rows(a: array2<int>, ro: nat, co: nat, w: nat, n: nat): (M: Mat)
    requires ro + n <= a.Length0 && co + w <= a.Length1
    reads a
    ensures IsMatrix(M, n, w)
    ensures forall i, j :: 0 <= i < n && 0 <= j < w ==> M[i][j] == a[ro + i, co + j]
  {
    if n == 0 then [] else Rows(a, ro, co, w, n - 1) + [seq(w, j requires 0 <= j < w reads a => a[ro + n - 1, co + j])]
  }

  /** A quadrant view of a view is the corresponding block of the parent view's matrix. */
  lemma ViewBlock(a: array2<int>, ro: nat, co: nat, r: nat, qo: nat, po: nat, h: nat)
    requires InBounds(a, ro, co, r) && qo + h <= r && po + h <= r
    ensures ViewOf(a, ro + qo, co + po, h) == Block(ViewOf(a, ro, co, r), qo, po, h)
  {
    var v, w := ViewOf(a, ro + qo, co + po, h), Block(ViewOf(a, ro, co, r), qo, po, h);
    assert forall i :: 0 <= i < h ==> v[i] == w[i];
  }

  /** alloc_matrix: a fresh n×n buffer of zeros. */
  method AllocMatrix(n: nat) returns (M: array2<int>)
    ensures fresh(M) && M.Length0 == n && M.Length1 == n
    ensures ViewOf(M, 0, 0, n) == Zero(n)
  {
    M := new int[n, n]((i, j) => 0);
    assert forall i :: 0 <= i < n ==> ViewOf(M, 0, 0, n)[i] == Zero(n)[i];
  }

  /** add_sub: the view of C becomes A + sign·B; nothing else in C changes. */
  method AddSub(A: array2<int>, ar: nat, ac: nat, B: array2<int>, br: nat, bc: nat,
                C: array2<int>, cr: nat, cc: nat, r: nat, sign: int)
    requires InBounds(A, ar, ac, r) && InBounds(B, br, bc, r) && InBounds(C, cr, cc, r)
    requires C != A && C != B
    modifies C
    ensures ViewOf(C, cr, cc, r) == Combine(ViewOf(A, ar, ac, r), ViewOf(B, br, bc, r), r, sign)
    ensures forall i, j :: 0 <= i < C.Length0 && 0 <= j < C.Length1 && !(cr <= i < cr + r && cc <= j < cc + r) ==>
      C[i, j] == old(C[i, j])
    ensures forall ro, co, w :: InBounds(C, ro, co, w) && Disjoint(ro, co, w, cr, cc, r) ==>
      ViewOf(C, ro, co, w) == old(ViewOf(C, ro, co, w))
  {
    ghost var want := Combine(ViewOf(A, ar, ac, r), ViewOf(B, br, bc, r), r, sign);
    for i := 0 to r
      invariant forall i', j' :: 0 <= i' < C.Length0 && 0 <= j' < C.Length1 && !(cr <= i' < cr + r && cc <= j' < cc + r) ==>
        C[i', j'] == old(C[i', j'])
      invariant forall i', j' :: 0 <= i' < i && 0 <= j' < r ==> C[cr + i', cc + j'] == want[i'][j']
    {
      for j := 0 to r
        invariant forall i', j' :: 0 <= i' < C.Length0 && 0 <= j' < C.Length1 && !(cr <= i' < cr + r && cc <= j' < cc + r) ==>
          C[i', j'] == old(C[i', j'])
        invariant forall i', j' :: 0 <= i' < i && 0 <= j' < r ==> C[cr + i', cc + j'] == want[i'][j']
        invariant forall j' :: 0 <= j' < j ==> C[cr + i, cc + j'] == want[i][j']
      {
        C[cr + i, cc + j] := A[ar + i, ac + j] + sign * B[br + i, bc + j];
      }
    }
    EqualEntries(ViewOf(C, cr, cc, r), want, r, r);
    forall ro, co, w | InBounds(C, ro, co, w) && Disjoint(ro, co, w, cr, cc, r)
      ensures ViewOf(C, ro, co, w) == old(ViewOf(C, ro, co, w))
    {
      EqualEntries(ViewOf(C, ro, co, w), old(ViewOf(C, ro, co, w)), w, w);
    }
  }

  /** classical_mul: the view of C accumulates A×B; nothing else in C changes. */
  method ClassicalMul(A: array2<int>, ar: nat, ac: nat, B: array2<int>, br: nat, bc: nat,
                      C: array2<int>, cr: nat, cc: nat, r: nat)
    requires InBounds(A, ar, ac, r) && InBounds(B, br, bc, r) && InBounds(C, cr, cc, r)
    requires C != A && C != B
    modifies C
    ensures ViewOf(C, cr, cc, r)
         == Combine(old(ViewOf(C, cr, cc, r)), Mul(ViewOf(A, ar, ac, r), ViewOf(B, br, bc, r), r, r, r), r, 1)
    ensures forall i, j :: 0 <= i < C.Length0 && 0 <= j < C.Length1 && !(cr <= i < cr + r && cc <= j < cc + r) ==>
      C[i, j] == old(C[i, j])
  {
    ghost var a, b := ViewOf(A, ar, ac, r), ViewOf(B, br, bc, r);
    for i := 0 to r
      invariant ViewOf(A, ar, ac, r) == a && ViewOf(B, br, bc, r) == b
      invariant forall i', j' :: 0 <= i' < C.Length0 && 0 <= j' < C.Length1 && !(cr <= i' < cr + i && cc <= j' < cc + r) ==>
        C[i', j'] == old(C[i', j'])
      invariant forall i', j' :: 0 <= i' < i && 0 <= j' < r ==>
        C[cr + i', cc + j'] == old(C[cr + i', cc + j']) + Dot(a, b, i', j', r)
    {
      ghost var rowBefore := Row(C, cr + i, cc, r);
      AccumulateRow(A, ar, ac, B, br, bc, C, cr, cc, r, i);
      forall j' | 0 <= j' < r
        ensures C[cr + i, cc + j'] == old(C[cr + i, cc + j']) + Dot(a, b, i, j', r)
      {
        assert Row(C, cr + i, cc, r)[j'] == rowBefore[j'] + Dot(ViewOf(A, ar, ac, r), ViewOf(B, br, bc, r), i, j', r);
      }
    }
    EqualEntries(ViewOf(C, cr, cc, r), Combine(old(ViewOf(C, cr, cc, r)), Mul(a, b, r, r, r), r, 1), r, r);
  }

  /** One pass of the i loop of classical_mul: row i of the view of C gains row i of A×B. */
  method AccumulateRow(A: array2<int>, ar: nat, ac: nat, B: array2<int>, br: nat, bc: nat,
                       C: array2<int>, cr: nat, cc: nat, r: nat, i: nat)
    requires InBounds(A, ar, ac, r) && InBounds(B, br, bc, r) && InBounds(C, cr, cc, r) && i < r
    requires C != A && C != B
    modifies C
    ensures forall j :: 0 <= j < r ==>
      Row(C, cr + i, cc, r)[j] == old(Row(C, cr + i, cc, r))[j] + Dot(ViewOf(A, ar, ac, r), ViewOf(B, br, bc, r), i, j, r)
    ensures forall i', j' :: 0 <= i' < C.Length0 && 0 <= j' < C.Length1 && !(i' == cr + i && cc <= j' < cc + r) ==>
      C[i', j'] == old(C[i', j'])
  {
    ghost var a, b, c0 := ViewOf(A, ar, ac, r), ViewOf(B, br, bc, r), Row(C, cr + i, cc, r);
    for k := 0 to r
      invariant forall j' :: 0 <= j' < r ==> Row(C, cr + i, cc, r)[j'] == c0[j'] + Dot(a, b, i, j', k)
      invariant forall i', j' :: 0 <= i' < C.Length0 && 0 <= j' < C.Length1 && !(i' == cr + i && cc <= j' < cc + r) ==>
        C[i', j'] == old(C[i', j'])
    {
      var aik := A[ar + i, ac + k];
      ghost var rowBefore := Row(C, cr + i, cc, r);
      AddScaledRow(aik, B, br + k, bc, C, cr + i, cc, r);
      forall j' | 0 <= j' < r
        ensures Row(C, cr + i, cc, r)[j'] == c0[j'] + Dot(a, b, i, j', k + 1)
      {
        assert Row(C, cr + i, cc, r)[j'] == rowBefore[j'] + aik * Row(B, br + k, bc, r)[j'];
      }
    }
  }

  /** The r entries of row `row` of buffer a from column co on. */
  function Row(a: array2<int>, row: nat, co: nat, r: nat): (s: seq<int>)
    requires row < a.Length0 && co + r <= a.Length1
    reads a
    ensures |s| == r && forall j :: 0 <= j < r ==> s[j] == a[row, co + j]
  {
    seq(r, j requires 0 <= j < r reads a => a[row, co + j])
  }

  /** The inner loop of classical_mul: row `crow` of C from column cc gains aik times row `brow` of B from column bc. */
  method AddScaledRow(aik: int, B: array2<int>, brow: nat, bc: nat, C: array2<int>, crow: nat, cc: nat, r: nat)
    requires brow < B.Length0 && bc + r <= B.Length1 && crow < C.Length0 && cc + r <= C.Length1
    requires C != B
    modifies C
    ensures forall j :: 0 <= j < r ==> Row(C, crow, cc, r)[j] == old(Row(C, crow, cc, r))[j] + aik * Row(B, brow, bc, r)[j]
    ensures forall i, j :: 0 <= i < C.Length0 && 0 <= j < C.Length1 && !(i == crow && cc <= j < cc + r) ==>
      C[i, j] == old(C[i, j])
  {
    ghost var before, b := Row(C, crow, cc, r), Row(B, brow, bc, r);
    for j := 0 to r
      invariant forall j' :: 0 <= j' < j ==> Row(C, crow, cc, r)[j'] == before[j'] + aik * b[j']
      invariant forall j' :: j <= j' < r ==> Row(C, crow, cc, r)[j'] == before[j']
      invariant forall i', j' :: 0 <= i' < C.Length0 && 0 <= j' < C.Length1 && !(i' == crow && cc <= j' < cc + r) ==>
        C[i', j'] == old(C[i', j'])
    {
      C[crow, cc + j] := C[crow, cc + j] + aik * B[brow, bc + j];
    }
  }

  /**
   The combine step of strassen_rec: with S1 and S2 as scratch, the 2h×2h
   buffer C is overwritten with the recombination of P1..P7.
   */
  method Recombine(P1: array2<int>, P2: array2<int>, P3: array2<int>, P4: array2<int>,
                   P5: array2<int>, P6: array2<int>, P7: array2<int>,
                   S1: array2<int>, S2: array2<int>, C: array2<int>, h: nat,
                   ghost p1: Mat, ghost p2: Mat, ghost p3: Mat, ghost p4: Mat,
                   ghost p5: Mat, ghost p6: Mat, ghost p7: Mat)
    requires InBounds(P1, 0, 0, h) && InBounds(P2, 0, 0, h) && InBounds(P3, 0, 0, h) && InBounds(P4, 0, 0, h)
    requires InBounds(P5, 0, 0, h) && InBounds(P6, 0, 0, h) && InBounds(P7, 0, 0, h)
    requires InBounds(S1, 0, 0, h) && InBounds(S2, 0, 0, h) && C.Length0 == 2 * h && C.Length1 == 2 * h
    requires S1 != S2 && S1 != C && S2 != C
    requires P1 != S1 && P1 != S2 && P1 != C && P2 != S1 && P2 != S2 && P2 != C && P3 != S1 && P3 != S2 && P3 != C
    requires P4 != S1 && P4 != S2 && P4 != C && P5 != S1 && P5 != S2 && P5 != C
    requires P6 != S1 && P6 != S2 && P6 != C && P7 != S1 && P7 != S2 && P7 != C
    requires ViewOf(P1, 0, 0, h) == p1 && ViewOf(P2, 0, 0, h) == p2 && ViewOf(P3, 0, 0, h) == p3
    requires ViewOf(P4, 0, 0, h) == p4 && ViewOf(P5, 0, 0, h) == p5 && ViewOf(P6, 0, 0, h) == p6
    requires ViewOf(P7, 0, 0, h) == p7
    modifies S1, S2, C
    ensures ViewOf(C, 0, 0, 2 * h) == StrassenCombine(p1, p2, p3, p4, p5, p6, p7, h)
  {
    RecombineTop(P1, P2, P4, P5, P6, S1, S2, C, h, p1, p2, p4, p5, p6);
    RecombineBottom(P1, P3, P4, P5, P7, S1, S2, C, h, p1, p3, p4, p5, p7);
    ViewOfGlue(C, h, Combine(Combine(Combine(p5, p4, h, 1), p2, h, -1), p6, h, 1), Combine(p1, p2, h, 1),
               Combine(p3, p4, h, 1), Combine(Combine(Combine(p5, p1, h, 1), p3, h, -1), p7, h, -1));
  }

  /** A 2h×2h view is the matrix glued from the views of its four quadrants. */
  lemma ViewOfGlue(C: array2<int>, h: nat, q11: Mat, q12: Mat, q21: Mat, q22: Mat)
    requires InBounds(C, 0, 0, 2 * h)
    requires ViewOf(C, 0, 0, h) == q11 && ViewOf(C, 0, h, h) == q12
    requires ViewOf(C, h, 0, h) == q21 && ViewOf(C, h, h, h) == q22
    ensures ViewOf(C, 0, 0, 2 * h) == Glue(q11, q12, q21, q22, h)
  {
    var v := ViewOf(C, 0, 0, 2 * h);
    ViewBlock(C, 0, 0, 2 * h, 0, 0, h);
    ViewBlock(C, 0, 0, 2 * h, 0, h, h);
    ViewBlock(C, 0, 0, 2 * h, h, 0, h);
    ViewBlock(C, 0, 0, 2 * h, h, h, h);
    GlueDetermined(v, q11, q12, q21, q22, h);
  }

  /**
   First half of the combine step of strassen_rec: C11 = P5 + P4 − P2 + P6
   and C12 = P1 + P2, using S1 and S2 as scratch; the bottom quadrants of C
   are left as they were.
   */
  method RecombineTop(P1: array2<int>, P2: array2<int>, P4: array2<int>, P5: array2<int>, P6: array2<int>,
                      S1: array2<int>, S2: array2<int>, C: array2<int>, h: nat,
                      ghost p1: Mat, ghost p2: Mat, ghost p4: Mat, ghost p5: Mat, ghost p6: Mat)
    requires InBounds(P1, 0, 0, h) && InBounds(P2, 0, 0, h) && InBounds(P4, 0, 0, h)
    requires InBounds(P5, 0, 0, h) && InBounds(P6, 0, 0, h)
    requires InBounds(S1, 0, 0, h) && InBounds(S2, 0, 0, h) && C.Length0 == 2 * h && C.Length1 == 2 * h
    requires S1 != S2 && S1 != C && S2 != C
    requires P1 != S1 && P1 != S2 && P1 != C && P2 != S1 && P2 != S2 && P2 != C
    requires P4 != S1 && P4 != S2 && P4 != C && P5 != S1 && P5 != S2 && P5 != C
    requires P6 != S1 && P6 != S2 && P6 != C
    requires ViewOf(P1, 0, 0, h) == p1 && ViewOf(P2, 0, 0, h) == p2 && ViewOf(P4, 0, 0, h) == p4
    requires ViewOf(P5, 0, 0, h) == p5 && ViewOf(P6, 0, 0, h) == p6
    modifies S1, S2, C
    ensures ViewOf(C, 0, 0, h) == Combine(Combine(Combine(p5, p4, h, 1), p2, h, -1), p6, h, 1)
    ensures ViewOf(C, 0, h, h) == Combine(p1, p2, h, 1)
    ensures ViewOf(C, h, 0, h) == old(ViewOf(C, h, 0, h)) && ViewOf(C, h, h, h) == old(ViewOf(C, h, h, h))
  {
    CombineThree(P5, P4, P2, P6, -1, 1, S1, S2, C, 0, 0, h);
    ghost var c11 := ViewOf(C, 0, 0, h);
    AddSub(P1, 0, 0, P2, 0, 0, C, 0, h, h, 1);
    assert ViewOf(C, 0, 0, h) == c11;
  }

  /**
   Second half of the combine step: C21 = P3 + P4 and C22 = P5 + P1 − P3 − P7;
   the top quadrants of C are left as they were.
   */
  method RecombineBottom(P1: array2<int>, P3: array2<int>, P4: array2<int>, P5: array2<int>, P7: array2<int>,
                         S1: array2<int>, S2: array2<int>, C: array2<int>, h: nat,
                         ghost p1: Mat, ghost p3: Mat, ghost p4: Mat, ghost p5: Mat, ghost p7: Mat)
    requires InBounds(P1, 0, 0, h) && InBounds(P3, 0, 0, h) && InBounds(P4, 0, 0, h)
    requires InBounds(P5, 0, 0, h) && InBounds(P7, 0, 0, h)
    requires InBounds(S1, 0, 0, h) && InBounds(S2, 0, 0, h) && C.Length0 == 2 * h && C.Length1 == 2 * h
    requires S1 != S2 && S1 != C && S2 != C
    requires P1 != S1 && P1 != S2 && P1 != C && P3 != S1 && P3 != S2 && P3 != C
    requires P4 != S1 && P4 != S2 && P4 != C && P5 != S1 && P5 != S2 && P5 != C
    requires P7 != S1 && P7 != S2 && P7 != C
    requires ViewOf(P1, 0, 0, h) == p1 && ViewOf(P3, 0, 0, h) == p3 && ViewOf(P4, 0, 0, h) == p4
    requires ViewOf(P5, 0, 0, h) == p5 && ViewOf(P7, 0, 0, h) == p7
    modifies S1, S2, C
    ensures ViewOf(C, h, 0, h) == Combine(p3, p4, h, 1)
    ensures ViewOf(C, h, h, h) == Combine(Combine(Combine(p5, p1, h, 1), p3, h, -1), p7, h, -1)
    ensures ViewOf(C, 0, 0, h) == old(ViewOf(C, 0, 0, h)) && ViewOf(C, 0, h, h) == old(ViewOf(C, 0, h, h))
  {
    AddSub(P3, 0, 0, P4, 0, 0, C, h, 0, h, 1);
    ghost var c21 := ViewOf(C, h, 0, h);
    CombineThree(P5, P1, P3, P7, -1, -1, S1, S2, C, h, h, h);
    assert ViewOf(C, h, 0, h) == c21;
  }

  /**
   Three chained add_sub calls of the combine step: S1 = X + Y,
   S2 = S1 + s2·Z, then the view of C at (qr, qc) becomes S2 + s3·W.
   */
  method CombineThree(X: array2<int>, Y: array2<int>, Z: array2<int>, W: array2<int>, s2: int, s3: int,
                      S1: array2<int>, S2: array2<int>, C: array2<int>, qr: nat, qc: nat, h: nat)
    requires InBounds(X, 0, 0, h) && InBounds(Y, 0, 0, h) && InBounds(Z, 0, 0, h) && InBounds(W, 0, 0, h)
    requires InBounds(S1, 0, 0, h) && InBounds(S2, 0, 0, h) && InBounds(C, qr, qc, h)
    requires S1 != S2 && S1 != C && S2 != C
    requires X != S1 && X != S2 && X != C && Y != S1 && Y != S2 && Y != C
    requires Z != S1 && Z != S2 && Z != C && W != S1 && W != S2 && W != C
    modifies S1, S2, C
    ensures ViewOf(C, qr, qc, h)
         == Combine(Combine(Combine(ViewOf(X, 0, 0, h), ViewOf(Y, 0, 0, h), h, 1), ViewOf(Z, 0, 0, h), h, s2),
                    ViewOf(W, 0, 0, h), h, s3)
    ensures forall i, j :: 0 <= i < C.Length0 && 0 <= j < C.Length1 && !(qr <= i < qr + h && qc <= j < qc + h) ==>
      C[i, j] == old(C[i, j])
    ensures forall ro, co, w :: InBounds(C, ro, co, w) && Disjoint(ro, co, w, qr, qc, h) ==>
      ViewOf(C, ro, co, w) == old(ViewOf(C, ro, co, w))
  {
    AddSub(X, 0, 0, Y, 0, 0, S1, 0, 0, h, 1);
    AddSub(S1, 0, 0, Z, 0, 0, S2, 0, 0, h, s2);
    AddSub(S2, 0, 0, W, 0, 0, C, qr, qc, h, s3);
  }

  /**
   malloc of an h×h scratch buffer followed by add_sub of two h×h quadrants
   of the 2h×2h view of X (the matrix x), at (q1r, q1c) and (q2r, q2c).
   */
  method QuadrantSum(X: array2<int>, xr: nat, xc: nat, h: nat, ghost x: Mat,
                     q1r: nat, q1c: nat, q2r: nat, q2c: nat, sign: int)
    returns (S: array2<int>)
    requires InBounds(X, xr, xc, 2 * h) && ViewOf(X, xr, xc, 2 * h) == x
    requires q1r <= h && q1c <= h && q2r <= h && q2c <= h
    ensures fresh(S) && S.Length0 == h && S.Length1 == h
    ensures ViewOf(S, 0, 0, h) == Combine(Block(x, q1r, q1c, h), Block(x, q2r, q2c, h), h, sign)
  {
    ViewBlock(X, xr, xc, 2 * h, q1r, q1c, h);
    ViewBlock(X, xr, xc, 2 * h, q2r, q2c, h);
    S := new int[h, h];
    AddSub(X, xr + q1r, xc + q1c, X, xr + q2r, xc + q2c, S, 0, 0, h, sign);
  }

  /**
   One product of strassen_rec: P = alloc_matrix(h), then the recursive
   call accumulates X×Y into the zeroed P, so P holds exactly X×Y.
   */
  method Product(X: array2<int>, xr: nat, xc: nat, Y: array2<int>, yr: nat, yc: nat, h: nat, leaf: nat,
                 ghost x: Mat, ghost y: Mat)
    returns (P: array2<int>)
    requires 1 <= leaf && IsPow2(h)
    requires InBounds(X, xr, xc, h) && InBounds(Y, yr, yc, h)
    requires ViewOf(X, xr, xc, h) == x && ViewOf(Y, yr, yc, h) == y
    ensures fresh(P) && P.Length0 == h && P.Length1 == h
    ensures ViewOf(P, 0, 0, h) == Mul(x, y, h, h, h)
    decreases h, 2
  {
    P := AllocMatrix(h);
    StrassenRec(X, xr, xc, Y, yr, yc, P, h, leaf);
    if h <= leaf {
      CombineZeroLeft(Mul(x, y, h, h, h), h);
    }
  }

  /**
   strassen_rec on r×r views of A and B, writing the r×r buffer C. At or
   below the leaf size the classical kernel adds A×B to C; above it the
   seven-product scheme overwrites C with A×B.
   */
  method StrassenRec(A: array2<int>, ar: nat, ac: nat, B: array2<int>, br: nat, bc: nat,
                     C: array2<int>, r: nat, leaf: nat)
    requires 1 <= leaf && IsPow2(r)
    requires InBounds(A, ar, ac, r) && InBounds(B, br, bc, r) && C.Length0 == r && C.Length1 == r
    requires C != A && C != B
    modifies C
    ensures r <= leaf ==>
      ViewOf(C, 0, 0, r) == Combine(old(ViewOf(C, 0, 0, r)), Mul(ViewOf(A, ar, ac, r), ViewOf(B, br, bc, r), r, r, r), r, 1)
    ensures r > leaf ==> ViewOf(C, 0, 0, r) == Mul(ViewOf(A, ar, ac, r), ViewOf(B, br, bc, r), r, r, r)
    decreases r, 1
  {
    if r <= leaf {
      ClassicalMul(A, ar, ac, B, br, bc, C, 0, 0, r);
      return;
    }
    HalfOfPow2(r);
    var h := r / 2;
    ghost var a, b := ViewOf(A, ar, ac, r), ViewOf(B, br, bc, r);
    var S1, S4, S6, S8, S10 := SumsOfB(B, br, bc, h, b);
    var S2, S3, S5, S7, S9 := SumsOfA(A, ar, ac, h, a);
    var P1, P4 := ProductsWithQuadrantsOfA(A, ar, ac, S1, S4, h, leaf, a, b);
    var P2, P3 := ProductsWithQuadrantsOfB(B, br, bc, S2, S3, h, leaf, a, b);
    var P5, P6, P7 := ProductsOfSums(S5, S6, S7, S8, S9, S10, h, leaf, a, b);
    ghost var p1, p2, p3, p4 := ViewOf(P1, 0, 0, h), ViewOf(P2, 0, 0, h), ViewOf(P3, 0, 0, h), ViewOf(P4, 0, 0, h);
    ghost var p5, p6, p7 := ViewOf(P5, 0, 0, h), ViewOf(P6, 0, 0, h), ViewOf(P7, 0, 0, h);
    StrassenStep(a, b, h, p1, p2, p3, p4, p5, p6, p7);
    Recombine(P1, P2, P3, P4, P5, P6, P7, S1, S2, C, h, p1, p2, p3, p4, p5, p6, p7);
  }

  /** The five add_sub calls of strassen_rec whose operands are quadrants of A (the matrix a). */
  method SumsOfA(A: array2<int>, ar: nat, ac: nat, h: nat, ghost a: Mat)
    returns (S2: array2<int>, S3: array2<int>, S5: array2<int>, S7: array2<int>, S9: array2<int>)
    requires InBounds(A, ar, ac, 2 * h) && ViewOf(A, ar, ac, 2 * h) == a
    ensures fresh(S2) && fresh(S3) && fresh(S5) && fresh(S7) && fresh(S9)
    ensures InBounds(S2, 0, 0, h) && InBounds(S3, 0, 0, h) && InBounds(S5, 0, 0, h)
    ensures InBounds(S7, 0, 0, h) && InBounds(S9, 0, 0, h)
    ensures ViewOf(S2, 0, 0, h) == Combine(Block(a, 0, 0, h), Block(a, 0, h, h), h, 1)
    ensures ViewOf(S3, 0, 0, h) == Combine(Block(a, h, 0, h), Block(a, h, h, h), h, 1)
    ensures ViewOf(S5, 0, 0, h) == Combine(Block(a, 0, 0, h), Block(a, h, h, h), h, 1)
    ensures ViewOf(S7, 0, 0, h) == Combine(Block(a, 0, h, h), Block(a, h, h, h), h, -1)
    ensures ViewOf(S9, 0, 0, h) == Combine(Block(a, 0, 0, h), Block(a, h, 0, h), h, -1)
  {
    S2 := QuadrantSum(A, ar, ac, h, a, 0, 0, 0, h, 1);
    S3 := QuadrantSum(A, ar, ac, h, a, h, 0, h, h, 1);
    S5 := QuadrantSum(A, ar, ac, h, a, 0, 0, h, h, 1);
    S7 := QuadrantSum(A, ar, ac, h, a, 0, h, h, h, -1);
    S9 := QuadrantSum(A, ar, ac, h, a, 0, 0, h, 0, -1);
  }

  /** The five add_sub calls of strassen_rec whose operands are quadrants of B (the matrix b). */
  method SumsOfB(B: array2<int>, br: nat, bc: nat, h: nat, ghost b: Mat)
    returns (S1: array2<int>, S4: array2<int>, S6: array2<int>, S8: array2<int>, S10: array2<int>)
    requires InBounds(B, br, bc, 2 * h) && ViewOf(B, br, bc, 2 * h) == b
    ensures fresh(S1) && fresh(S4) && fresh(S6) && fresh(S8) && fresh(S10)
    ensures InBounds(S1, 0, 0, h) && InBounds(S4, 0, 0, h) && InBounds(S6, 0, 0, h)
    ensures InBounds(S8, 0, 0, h) && InBounds(S10, 0, 0, h)
    ensures ViewOf(S1, 0, 0, h) == Combine(Block(b, 0, h, h), Block(b, h, h, h), h, -1)
    ensures ViewOf(S4, 0, 0, h) == Combine(Block(b, h, 0, h), Block(b, 0, 0, h), h, -1)
    ensures ViewOf(S6, 0, 0, h) == Combine(Block(b, 0, 0, h), Block(b, h, h, h), h, 1)
    ensures ViewOf(S8, 0, 0, h) == Combine(Block(b, h, 0, h), Block(b, h, h, h), h, 1)
    ensures ViewOf(S10, 0, 0, h) == Combine(Block(b, 0, 0, h), Block(b, 0, h, h), h, 1)
  {
    S1 := QuadrantSum(B, br, bc, h, b, 0, h, h, h, -1);
    S4 := QuadrantSum(B, br, bc, h, b, h, 0, 0, 0, -1);
    S6 := QuadrantSum(B, br, bc, h, b, 0, 0, h, h, 1);
    S8 := QuadrantSum(B, br, bc, h, b, h, 0, h, h, 1);
    S10 := QuadrantSum(B, br, bc, h, b, 0, 0, 0, h, 1);
  }

  /**
   P1 = A11·S1 and P4 = A22·S4 of strassen_rec, each into its own zeroed
   buffer: a diagonal quadrant of a times a sum of quadrants of b.
   */
  method ProductsWithQuadrantsOfA(A: array2<int>, ar: nat, ac: nat, S1: array2<int>, S4: array2<int>,
                                  h: nat, leaf: nat, ghost a: Mat, ghost b: Mat)
    returns (P1: array2<int>, P4: array2<int>)
    requires 1 <= leaf && IsPow2(h) && IsMatrix(b, 2 * h, 2 * h)
    requires InBounds(A, ar, ac, 2 * h) && ViewOf(A, ar, ac, 2 * h) == a
    requires InBounds(S1, 0, 0, h) && InBounds(S4, 0, 0, h)
    requires ViewOf(S1, 0, 0, h) == Combine(Block(b, 0, h, h), Block(b, h, h, h), h, -1)
    requires ViewOf(S4, 0, 0, h) == Combine(Block(b, h, 0, h), Block(b, 0, 0, h), h, -1)
    ensures fresh(P1) && fresh(P4)
    ensures InBounds(P1, 0, 0, h) && InBounds(P4, 0, 0, h)
    ensures ViewOf(P1, 0, 0, h) == Mul(Block(a, 0, 0, h), Combine(Block(b, 0, h, h), Block(b, h, h, h), h, -1), h, h, h)
    ensures ViewOf(P4, 0, 0, h) == Mul(Block(a, h, h, h), Combine(Block(b, h, 0, h), Block(b, 0, 0, h), h, -1), h, h, h)
    decreases h, 3
  {
    ghost var a11, a22 := Block(a, 0, 0, h), Block(a, h, h, h);
    ghost var s1, s4 := ViewOf(S1, 0, 0, h), ViewOf(S4, 0, 0, h);
    assert ViewOf(A, ar, ac, h) == a11 by { ViewBlock(A, ar, ac, 2 * h, 0, 0, h); }
    assert ViewOf(A, ar + h, ac + h, h) == a22 by { ViewBlock(A, ar, ac, 2 * h, h, h, h); }
    P1 := Product(A, ar, ac, S1, 0, 0, h, leaf, a11, s1);
    P4 := Product(A, ar + h, ac + h, S4, 0, 0, h, leaf, a22, s4);
  }

  /**
   P2 = S2·B22 and P3 = S3·B11 of strassen_rec, each into its own zeroed
   buffer: a sum of quadrants of a times a diagonal quadrant of b.
   */
  method ProductsWithQuadrantsOfB(B: array2<int>, br: nat, bc: nat, S2: array2<int>, S3: array2<int>,
                                  h: nat, leaf: nat, ghost a: Mat, ghost b: Mat)
    returns (P2: array2<int>, P3: array2<int>)
    requires 1 <= leaf && IsPow2(h) && IsMatrix(a, 2 * h, 2 * h)
    requires InBounds(B, br, bc, 2 * h) && ViewOf(B, br, bc, 2 * h) == b
    requires InBounds(S2, 0, 0, h) && InBounds(S3, 0, 0, h)
    requires ViewOf(S2, 0, 0, h) == Combine(Block(a, 0, 0, h), Block(a, 0, h, h), h, 1)
    requires ViewOf(S3, 0, 0, h) == Combine(Block(a, h, 0, h), Block(a, h, h, h), h, 1)
    ensures fresh(P2) && fresh(P3)
    ensures InBounds(P2, 0, 0, h) && InBounds(P3, 0, 0, h)
    ensures ViewOf(P2, 0, 0, h) == Mul(Combine(Block(a, 0, 0, h), Block(a, 0, h, h), h, 1), Block(b, h, h, h), h, h, h)
    ensures ViewOf(P3, 0, 0, h) == Mul(Combine(Block(a, h, 0, h), Block(a, h, h, h), h, 1), Block(b, 0, 0, h), h, h, h)
    decreases h, 3
  {
    ghost var b11, b22 := Block(b, 0, 0, h), Block(b, h, h, h);
    ghost var s2, s3 := ViewOf(S2, 0, 0, h), ViewOf(S3, 0, 0, h);
    assert ViewOf(B, br, bc, h) == b11 by { ViewBlock(B, br, bc, 2 * h, 0, 0, h); }
    assert ViewOf(B, br + h, bc + h, h) == b22 by { ViewBlock(B, br, bc, 2 * h, h, h, h); }
    P2 := Product(S2, 0, 0, B, br + h, bc + h, h, leaf, s2, b22);
    P3 := Product(S3, 0, 0, B, br, bc, h, leaf, s3, b11);
  }

  /**
   The last three recursive products of strassen_rec, P5..P7, each into its
   own zeroed buffer; each multiplies two sums.
   */
  method ProductsOfSums(S5: array2<int>, S6: array2<int>, S7: array2<int>, S8: array2<int>,
                        S9: array2<int>, S10: array2<int>, h: nat, leaf: nat, ghost a: Mat, ghost b: Mat)
    returns (P5: array2<int>, P6: array2<int>, P7: array2<int>)
    requires 1 <= leaf && IsPow2(h)
    requires IsMatrix(a, 2 * h, 2 * h) && IsMatrix(b, 2 * h, 2 * h)
    requires InBounds(S5, 0, 0, h) && InBounds(S6, 0, 0, h) && InBounds(S7, 0, 0, h) && InBounds(S8, 0, 0, h)
    requires InBounds(S9, 0, 0, h) && InBounds(S10, 0, 0, h)
    requires ViewOf(S5, 0, 0, h) == Combine(Block(a, 0, 0, h), Block(a, h, h, h), h, 1)
    requires ViewOf(S6, 0, 0, h) == Combine(Block(b, 0, 0, h), Block(b, h, h, h), h, 1)
    requires ViewOf(S7, 0, 0, h) == Combine(Block(a, 0, h, h), Block(a, h, h, h), h, -1)
    requires ViewOf(S8, 0, 0, h) == Combine(Block(b, h, 0, h), Block(b, h, h, h), h, 1)
    requires ViewOf(S9, 0, 0, h) == Combine(Block(a, 0, 0, h), Block(a, h, 0, h), h, -1)
    requires ViewOf(S10, 0, 0, h) == Combine(Block(b, 0, 0, h), Block(b, 0, h, h), h, 1)
    ensures fresh(P5) && fresh(P6) && fresh(P7)
    ensures InBounds(P5, 0, 0, h) && InBounds(P6, 0, 0, h) && InBounds(P7, 0, 0, h)
    ensures ViewOf(P5, 0, 0, h) == Mul(Combine(Block(a, 0, 0, h), Block(a, h, h, h), h, 1),
                                       Combine(Block(b, 0, 0, h), Block(b, h, h, h), h, 1), h, h, h)
    ensures ViewOf(P6, 0, 0, h) == Mul(Combine(Block(a, 0, h, h), Block(a, h, h, h), h, -1),
                                       Combine(Block(b, h, 0, h), Block(b, h, h, h), h, 1), h, h, h)
    ensures ViewOf(P7, 0, 0, h) == Mul(Combine(Block(a, 0, 0, h), Block(a, h, 0, h), h, -1),
                                       Combine(Block(b, 0, 0, h), Block(b, 0, h, h), h, 1), h, h, h)
    decreases h, 3
  {
    P5 := Product(S5, 0, 0, S6, 0, 0, h, leaf,
                  Combine(Block(a, 0, 0, h), Block(a, h, h, h), h, 1), Combine(Block(b, 0, 0, h), Block(b, h, h, h), h, 1));
    P6 := Product(S7, 0, 0, S8, 0, 0, h, leaf,
                  Combine(Block(a, 0, h, h), Block(a, h, h, h), h, -1), Combine(Block(b, h, 0, h), Block(b, h, h, h), h, 1));
    P7 := Product(S9, 0, 0, S10, 0, 0, h, leaf,
                  Combine(Block(a, 0, 0, h), Block(a, h, 0, h), h, -1), Combine(Block(b, 0, 0, h), Block(b, 0, h, h), h, 1));
  }

  /**
   The first loop pair of strassen_mul: row i of the rows×cols source,
   stored row-major, is copied (memcpy) into row i of the zeroed size×size
   buffer, which then holds the source padded with zeros.
   */
  method CopyIn(src: array<int>, rows: nat, cols: nat, dst: array2<int>, size: nat)
    requires src.Length == rows * cols && rows <= size && cols <= size
    requires dst.Length0 == size && dst.Length1 == size && ViewOf(dst, 0, 0, size) == Zero(size)
    modifies dst
    ensures ViewOf(dst, 0, 0, size) == Pad(FromFlat(src[..], rows, cols), rows, cols, size)
  {
    ghost var want := Pad(FromFlat(src[..], rows, cols), rows, cols, size);
    forall i', j' | 0 <= i' < size && 0 <= j' < size
      ensures dst[i', j'] == 0
    {
      assert ViewOf(dst, 0, 0, size)[i'][j'] == Zero(size)[i'][j'];
    }
    for i := 0 to rows
      invariant forall i', j' :: 0 <= i' < size && 0 <= j' < size ==> dst[i', j'] == if i' < i then want[i'][j'] else 0
    {
      for j := 0 to cols
        invariant forall i', j' :: 0 <= i' < size && 0 <= j' < size ==>
          dst[i', j'] == if i' < i || (i' == i && j' < j) then want[i'][j'] else 0
      {
        FlatIndex(i, j, rows, cols);
        dst[i, j] := src[Flat(i, j, cols)];
      }
    }
    EqualEntries(ViewOf(dst, 0, 0, size), want, size, size);
  }

  /**
   The last loop of strassen_mul: row i of the rows×cols corner of the
   buffer is copied to row i of the row-major destination.
   */
  method CopyOut(src: array2<int>, size: nat, rows: nat, cols: nat, dst: array<int>)
    requires InBounds(src, 0, 0, size) && rows <= size && cols <= size
    requires dst.Length == rows * cols
    modifies dst
    ensures FromFlat(dst[..], rows, cols) == Crop(ViewOf(src, 0, 0, size), rows, cols)
  {
    for i := 0 to rows
      invariant forall i', j' :: 0 <= i' < i && 0 <= j' < cols ==>
        (FlatIndex(i', j', rows, cols); dst[Flat(i', j', cols)] == src[i', j'])
    {
      RowEnd(i, rows, cols);
      CopyRowOut(src, i, cols, dst, Flat(i, 0, cols));
      forall i', j' | 0 <= i' < i && 0 <= j' < cols
        ensures Flat(i', j', cols) < Flat(i, 0, cols)
      {
        FlatIndex(i', j', i, cols);
      }
    }
    ghost var got, want := FromFlat(dst[..], rows, cols), Crop(ViewOf(src, 0, 0, size), rows, cols);
    forall i, j | 0 <= i < rows && 0 <= j < cols
      ensures got[i][j] == want[i][j]
    {
      FlatIndex(i, j, rows, cols);
      assert got[i][j] == dst[Flat(i, j, cols)];
    }
    EqualEntries(got, want, rows, cols);
  }

  /** Row i of a rows×cols row-major buffer ends inside the buffer. */
  lemma RowEnd(i: nat, rows: nat, cols: nat)
    requires i < rows
    ensures Flat(i, 0, cols) + cols <= rows * cols
  {
    assert Flat(i, 0, cols) + cols == (i + 1) * cols;
    assert (i + 1) * cols <= rows * cols;
  }

  /** One memcpy of the copy-out loop: row i of src goes to dst[base..base + cols]. */
  method CopyRowOut(src: array2<int>, i: nat, cols: nat, dst: array<int>, base: nat)
    requires i < src.Length0 && cols <= src.Length1 && base + cols <= dst.Length
    modifies dst
    ensures forall j :: 0 <= j < cols ==> dst[base + j] == src[i, j]
    ensures forall t :: 0 <= t < dst.Length && !(base <= t < base + cols) ==> dst[t] == old(dst[t])
  {
    for j := 0 to cols
      invariant forall j' :: 0 <= j' < j ==> dst[base + j'] == src[i, j']
      invariant forall t :: 0 <= t < dst.Length && !(base <= t < base + cols) ==> dst[t] == old(dst[t])
    {
      dst[base + j] := src[i, j];
    }
  }

  /**
   strassen_mul: the n×k matrix A times the k×m matrix B, both row-major,
   into the row-major n×m matrix C. The operands are zero-padded to the
   next power of two S at least n, m and k, multiplied by strassen_rec and
   the n×m corner is copied out. kb, the row count the caller gives for B,
   is not used by the code.
   */
  method StrassenMul(A: array<int>, n: nat, k: nat, B: array<int>, kb: nat, m: nat, C: array<int>, leaf: nat)
    requires 1 <= leaf
    requires n <= 0x4000_0000 && k <= 0x4000_0000 && m <= 0x4000_0000
    requires A.Length == n * k && B.Length == k * m && C.Length == n * m
    requires C != A && C != B
    modifies C
    ensures FromFlat(C[..], n, m) == Mul(FromFlat(A[..], n, k), FromFlat(B[..], k, m), n, k, m)
  {
    var nm := if n > m then n else m;
    var S := NextPow2(if nm > k then nm else k);
    ghost var x, y := FromFlat(A[..], n, k), FromFlat(B[..], k, m);
    var Ap := AllocMatrix(S);
    var Bp := AllocMatrix(S);
    var Cp := AllocMatrix(S);
    CopyIn(A, n, k, Ap, S);
    CopyIn(B, k, m, Bp, S);
    StrassenRec(Ap, 0, 0, Bp, 0, 0, Cp, S, leaf);
    ghost var prod := Mul(Pad(x, n, k, S), Pad(y, k, m, S), S, S, S);
    if S <= leaf {
      CombineZeroLeft(prod, S);
    }
    assert ViewOf(Cp, 0, 0, S) == prod;
    CopyOut(Cp, S, n, m, C);
    PaddedProduct(x, y, n, k, m, S);
  }
}
