/**
 How the Strassen engine of bin/main.c addresses quadrants in flat,
 row-major memory. The quadrant macro of strassen_rec computes offsets as if
 the r×r matrix it splits had rows r entries apart, which holds only for a
 whole buffer, and hands the resulting pointers on; add_sub and
 classical_mul, given such a pointer and the size h = r/2, read and write
 h×h entries as if the rows were h entries apart. This module models the
 compact reading as written, shows that it is right on whole compact
 buffers, and shows where it parts from the intended quadrant, which is the
 reading the Strassen module uses.
 */
module Addressing {
  import opened Matrix

  /**
   The offset the quadrant macro gives quadrant (qi, qj) of an r×r buffer
   split at h: the row-major position, at stride r, of the quadrant's
   top-left entry. When r = 2h, every entry of the h×h quadrant read at
   stride r from there lies inside the buffer.
   */
  function SubOffset(qi: nat, qj: nat, h: nat, r: nat): (o: nat)
    ensures o == Flat(qi * h, qj * h, r)
    ensures qi <= 1 && qj <= 1 && 0 < h && r == 2 * h ==> o + Flat(h - 1, h - 1, r) < r * r
  {
    var o := qi * h * r + qj * h;
    if qi <= 1 && qj <= 1 && 0 < h && r == 2 * h then
      QuadrantInside(qi, qj, h);
      o
    else
      o
  }

  /** An h×h quadrant of a 2h×2h buffer, read at stride 2h, stays inside the buffer. */
  lemma QuadrantInside(qi: nat, qj: nat, h: nat)
    requires qi <= 1 && qj <= 1 && 0 < h
    ensures qi * h * (2 * h) + qj * h + Flat(h - 1, h - 1, 2 * h) < (2 * h) * (2 * h)
  {
    var r := 2 * h;
    var hr := h * r;
    assert qi * h * r <= hr by {
      if qi == 0 {
        assert qi * h * r == 0;
      } else {
        assert qi * h * r == hr;
      }
    }
    assert qj * h <= h;
    assert (h - 1) * r == hr - r;
    assert r * r == 2 * hr;
  }

  /**
   add_sub exactly as written, from the pointers a and b on: C[t] =
   A[t] + sign·B[t] for t < n2. A pointer into a flat buffer is modelled as
   the suffix of the buffer that starts there.
   */
  function AddSubAsWritten(a: seq<int>, b: seq<int>, n2: nat, sign: int): (c: seq<int>)
    requires n2 <= |a| && n2 <= |b|
    ensures |c| == n2
    ensures forall t :: 0 <= t < n2 ==> c[t] == a[t] + sign * b[t]
  {
    seq(n2, t requires 0 <= t < n2 => a[t] + sign * b[t])
  }

  /**
   When the operands are whole compact r×r buffers, as the P and S buffers
   of the combine step of strassen_rec are, the compact reading of add_sub
   is the intended one.
   */
  lemma AddSubAgreesUnsplit(a: seq<int>, b: seq<int>, r: nat, sign: int)
    requires |a| == r * r && |b| == r * r
    ensures FromFlat(AddSubAsWritten(a, b, r * r, sign), r, r)
         == Combine(FromFlat(a, r, r), FromFlat(b, r, r), r, sign)
  {
    var c := AddSubAsWritten(a, b, r * r, sign);
    var v, w := FromFlat(c, r, r), Combine(FromFlat(a, r, r), FromFlat(b, r, r), r, sign);
    forall i, j | 0 <= i < r && 0 <= j < r
      ensures v[i][j] == w[i][j]
    {
      FlatIndex(i, j, r, r);
    }
    EqualEntries(v, w, r, r);
  }

  /** A multiple of r strictly between −r and r is zero. */
  lemma ZeroMultiple(d: int, r: int, e: int)
    requires r > 0 && -r < e < r && d * r == e
    ensures d == 0
  {
  }

  /** A positive multiple of a positive r has a positive factor. */
  lemma PositiveFactor(x: int, r: int)
    requires r > 0 && x * r > 0
    ensures x > 0
  {
  }

  /** Every flat index t of an r×r buffer is row t / r, column t % r. */
  lemma Unflat(t: nat, r: nat)
    requires t < r * r
    ensures t / r < r && t % r < r && t == Flat(t / r, t % r, r)
  {
    var q, m := t / r, t % r;
    assert t == q * r + m;
    assert (r - q) * r == r * r - q * r;
    PositiveFactor(r - q, r);
  }

  /** Row and column are recovered from the flat index i·r + j. */
  lemma FlatDivMod(i: nat, j: nat, r: nat)
    requires j < r
    ensures Flat(i, j, r) / r == i && Flat(i, j, r) % r == j
  {
    var t := Flat(i, j, r);
    var q, m := t / r, t % r;
    assert t == q * r + m && t == i * r + j;
    assert (q - i) * r == q * r - i * r;
    ZeroMultiple(q - i, r, j - m);
  }

  /** The sum over k < t of A[i·r + k]·B[k·r + j], in the k order of classical_mul. */
  function FlatDot(a: seq<int>, b: seq<int>, r: nat, i: nat, j: nat, t: nat): int
    requires |a| == r * r && |b| == r * r && i < r && j < r && t <= r
  {
    if t == 0 then 0
    else
      FlatIndex(i, t - 1, r, r);
      FlatIndex(t - 1, j, r, r);
      FlatDot(a, b, r, i, j, t - 1) + a[Flat(i, t - 1, r)] * b[Flat(t - 1, j, r)]
  }

  /**
   What classical_mul leaves at flat index t = i·r + j of C: the old C[t]
   plus A[i·r + k]·B[k·r + j] for every k, added in increasing k.
   */
  function ClassicalMulCell(a: seq<int>, b: seq<int>, c: seq<int>, r: nat, t: nat): int
    requires |a| == r * r && |b| == r * r && |c| == r * r && t < r * r
  {
    Unflat(t, r);
    c[t] + FlatDot(a, b, r, t / r, t % r, r)
  }

  /**
   classical_mul exactly as written, on whole compact r×r buffers: every
   entry of C, addressed i·r + j, gains its row-times-column sum.
   */
  function ClassicalMulAsWritten(a: seq<int>, b: seq<int>, c: seq<int>, r: nat): (d: seq<int>)
    requires |a| == r * r && |b| == r * r && |c| == r * r
    ensures |d| == r * r
    ensures forall i, j :: 0 <= i < r && 0 <= j < r ==>
      Flat(i, j, r) < |d| && d[Flat(i, j, r)] == c[Flat(i, j, r)] + FlatDot(a, b, r, i, j, r)
  {
    var d := seq(r * r, t requires 0 <= t < r * r => ClassicalMulCell(a, b, c, r, t));
    assert forall i, j :: 0 <= i < r && 0 <= j < r ==>
      Flat(i, j, r) < |d| && d[Flat(i, j, r)] == c[Flat(i, j, r)] + FlatDot(a, b, r, i, j, r) by {
      forall i, j | 0 <= i < r && 0 <= j < r
        ensures Flat(i, j, r) < |d| && d[Flat(i, j, r)] == c[Flat(i, j, r)] + FlatDot(a, b, r, i, j, r)
      {
        FlatIndex(i, j, r, r);
        FlatDivMod(i, j, r);
      }
    }
    d
  }

  /** The flat sum is the inner product of the row-major readings. */
  lemma {:induction false} FlatDotIsDot(a: seq<int>, b: seq<int>, r: nat, i: nat, j: nat, t: nat)
    requires |a| == r * r && |b| == r * r && i < r && j < r && t <= r
    ensures FlatDot(a, b, r, i, j, t) == Dot(FromFlat(a, r, r), FromFlat(b, r, r), i, j, t)
  {
    if t > 0 {
      FlatDotIsDot(a, b, r, i, j, t - 1);
    }
  }

  /**
   On whole compact r×r buffers, which is what strassen_rec hands on at or
   below the leaf size when strassen_mul's S is that small, classical_mul as
   written computes C + A×B of their row-major readings.
   */
  lemma ClassicalMulAgreesUnsplit(a: seq<int>, b: seq<int>, c: seq<int>, r: nat)
    requires |a| == r * r && |b| == r * r && |c| == r * r
    ensures FromFlat(ClassicalMulAsWritten(a, b, c, r), r, r)
         == Combine(FromFlat(c, r, r), Mul(FromFlat(a, r, r), FromFlat(b, r, r), r, r, r), r, 1)
  {
    var d := ClassicalMulAsWritten(a, b, c, r);
    var v, w := FromFlat(d, r, r), Combine(FromFlat(c, r, r), Mul(FromFlat(a, r, r), FromFlat(b, r, r), r, r, r), r, 1);
    forall i, j | 0 <= i < r && 0 <= j < r
      ensures v[i][j] == w[i][j]
    {
      FlatIndex(i, j, r, r);
      FlatDivMod(i, j, r);
      FlatDotIsDot(a, b, r, i, j, r);
      assert v[i][j] == d[Flat(i, j, r)] == ClassicalMulCell(a, b, c, r, Flat(i, j, r));
    }
    EqualEntries(v, w, r, r);
  }
  /** The sizes the split of a 2h×2h buffer involves. */
  lemma SplitSizes(h: nat)
    requires h >= 2
    ensures h < h * h && h + h * h <= (2 * h) * (2 * h) && 3 * h < (2 * h) * (2 * h)
  {
    assert (2 * h) * (2 * h) == 4 * (h * h);
    assert h * h >= 2 * h;
  }

  /** Entry (1, 0) of S2 as add_sub computes it from the macro's pointers 0 and h, read as an h×h matrix. */
  lemma AsWrittenEntry(mem: seq<int>, h: nat)
    requires h >= 2 && |mem| == (2 * h) * (2 * h)
    ensures h + h * h <= |mem| && 2 * h < |mem|
    ensures FromFlat(AddSubAsWritten(mem[0..], mem[h..], h * h, 1), h, h)[1][0] == mem[h] + mem[2 * h]
  {
    SplitSizes(h);
    var c := AddSubAsWritten(mem[0..], mem[h..], h * h, 1);
    FlatIndex(1, 0, h, h);
    assert c[h] == mem[h] + mem[2 * h];
  }

  /** Entry (1, 0) of A11 + A12 for the 2h×2h matrix stored in mem. */
  lemma IntendedEntry(mem: seq<int>, h: nat)
    requires h >= 2 && |mem| == (2 * h) * (2 * h)
    ensures 3 * h < |mem|
    ensures var x := FromFlat(mem, 2 * h, 2 * h);
            Combine(Block(x, 0, 0, h), Block(x, 0, h, h), h, 1)[1][0] == mem[2 * h] + mem[3 * h]
  {
    SplitSizes(h);
    var r := 2 * h;
    var x := FromFlat(mem, r, r);
    FlatIndex(1, 0, r, r);
    FlatIndex(1, h, r, r);
    assert x[1][0] == mem[2 * h] && x[1][h] == mem[3 * h];
  }

  /**
   Once a 2h×2h buffer with h >= 2 is split, S2 = A11 + A12 as add_sub
   computes it from the macro's pointers, read as the compact h×h matrix
   the next call sees, has at (1, 0) the sum of the entries (0, h) and
   (1, 0) of A, while A11 + A12 has the entries (1, 0) and (1, h) there;
   the two differ exactly when A's entries (0, h) and (1, h) do.
   */
  lemma AddSubMisreadsQuadrants(mem: seq<int>, h: nat)
    requires h >= 2 && |mem| == (2 * h) * (2 * h)
    ensures SubOffset(0, 0, h, 2 * h) == 0 && SubOffset(0, 1, h, 2 * h) == h
    ensures h + h * h <= |mem| && 3 * h < |mem|
    ensures var asWritten := FromFlat(AddSubAsWritten(mem[SubOffset(0, 0, h, 2 * h)..], mem[SubOffset(0, 1, h, 2 * h)..], h * h, 1), h, h);
            var x := FromFlat(mem, 2 * h, 2 * h);
            var intended := Combine(Block(x, 0, 0, h), Block(x, 0, h, h), h, 1);
            (asWritten[1][0] == intended[1][0] <==> mem[h] == mem[3 * h])
            && (mem[h] != mem[3 * h] ==> asWritten != intended)
  {
    assert SubOffset(0, 0, h, 2 * h) == 0 && SubOffset(0, 1, h, 2 * h) == h;
    AsWrittenEntry(mem, h);
    IntendedEntry(mem, h);
  }
}
