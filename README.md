# Strassen multiplication and clause preprocessing, modelled in Dafny

The repository has two C programs, and this project models the core of each.

**`bin/main.c`** multiplies matrices with Strassen's algorithm:

- `strassen_mul` pads A (n×k) and B (k×m) with zeros to S×S, where S is the next power of two at least n, k and m. It then runs `strassen_rec` and copies the n×m corner back out.
- `strassen_rec` handles sizes up to `LEAF_SIZE` with the classical triple loop (`classical_mul`, which accumulates `C += A×B`).
- Above that size, `strassen_rec` forms ten sums S1..S10 of quadrants with `add_sub`, computes seven products P1..P7 recursively into zeroed buffers from `alloc_matrix`, and overwrites the four quadrants of C with their recombination.

**`main.c`** preprocesses clauses:

- A clause is a buffer of integer literals plus a count.
- `read_clauses` records every literal's variable in a 1024-entry seen table and builds the increasing list of distinct variables.
- Each clause is tested for a complementary pair (`check_unsat_clause`).
- The clause is then padded with the variables it does not mention (`pad_clause`) and sorted with the comparator `cmp_abs`.
- Finally it becomes a forbidden-sign vector (`build_forbidden`).

The files:

- `matrix.dfy` (module `Matrix`): integer matrices as `seq<seq<int>>`, with these definitions:
  - the product `Mul`, the entrywise `Combine` (A + sign·B) and the quadrant `Block`;
  - the row-major reading `FromFlat`, and zero padding and cropping.

  It also proves Strassen's identities (`StrassenStep`) and that padding preserves the product (`PaddedProduct`).
- `strassen.dfy` (module `Strassen`): the engine, imperative, on `array2<int>` buffers.
  - Every operand is a view: a buffer, a row offset, a column offset and a size, read with the buffer's own row stride. The model follows this explicit stride, which is the quadrant addressing the algorithm intends. It does not follow the arithmetic of the quadrant macro `SUB` (bin/main.c:49). `SUB(M,i,j)` is `M + i·h·r + j·h`, with the current size r as the stride, so it agrees with the buffer's stride only when M is a whole r×r buffer. The first finding below is about this.
  - Each method is proved against the `Matrix` functions.
  - The caller-facing A, B and C of `strassen_mul` are flat row-major `array<int>`s.
- `addressing.dfy` (module `Addressing`): the flat-memory addressing of the C code as written. It shows that `add_sub` and `classical_mul` are right on whole compact buffers, and it holds the as-written half of the first finding below.
- `clauses.dfy` (module `Clauses`): the clause helpers.
  - A `Clause` class holds the `lit` buffer and `sz`.
  - Specification functions (`Missing`, `FirstMatch`, `Forbidden`, `SeenBelow`) come with lemmas that state what they mean.

Entries are `int`, so every algebraic identity is exact. `LEAF_SIZE` (64 in bin/main.c:7) is the parameter `leaf >= 1`, so that small instances exercise the recursive case.

**Where the code and its comments disagree.** The comment at bin/main.c:42 says `strassen_rec` computes `C += A×B`.

- The code does this only at the leaf (lines 44-47).
- Above the leaf size, lines 92-99 overwrite the quadrants of C.
- `Strassen.StrassenRec` states both cases: C gains A×B when r ≤ leaf, and C becomes A×B when r > leaf.
- Every caller hands it a zeroed C (bin/main.c:60-62 and 113), so `Product` and `StrassenMul` get exactly the product.

## Model

| member | source | states |
|---|---|---|
| Strassen.NextPow2 | bin/main.c:17-21 | the result is a power of two, at least x, and no greater than any power of two that is at least x (it is 1, or half of it is below x) |
| Strassen.AllocMatrix | bin/main.c:10-14 | a fresh n×n buffer whose every entry is 0 |
| Strassen.AddSub | bin/main.c:34-40 | the view of C is A + sign·B entry by entry; no entry of C outside the view changes, nor does any view disjoint from it; only C is modified |
| Strassen.ClassicalMul | bin/main.c:23-32 | the view of C is its old value plus A×B (accumulating); nothing else in C changes |
| Strassen.AccumulateRow | bin/main.c:26-31 | one pass of the i loop: row i of C gains row i of A×B, every other entry of C is unchanged |
| Strassen.AddScaledRow | bin/main.c:28-30 | the j loop: the row of C gains aik times the row of B, every other entry unchanged |
| Strassen.ViewBlock | bin/main.c:49 | the h×h view at a quadrant offset of an r×r view is that quadrant (Block) of the r×r matrix |
| Strassen.QuadrantSum | bin/main.c:55-73 | a fresh h×h buffer holding the sum or difference of two quadrants of the operand |
| Strassen.SumsOfA | bin/main.c:65-72 | S2 = A11+A12, S3 = A21+A22, S5 = A11+A22, S7 = A12−A22, S9 = A11−A21 |
| Strassen.SumsOfB | bin/main.c:64-73 | S1 = B12−B22, S4 = B21−B11, S6 = B11+B22, S8 = B21+B22, S10 = B11+B12 |
| Strassen.Product | bin/main.c:60-88 | a zeroed buffer from alloc_matrix passed to the recursive call ends up holding exactly X×Y |
| Strassen.ProductsWithQuadrantsOfA | bin/main.c:75-82 | P1 = A11·S1 and P4 = A22·S4 as products of the quadrant matrices, each in a fresh buffer |
| Strassen.ProductsWithQuadrantsOfB | bin/main.c:77-80 | P2 = S2·B22 and P3 = S3·B11 as products of the quadrant matrices, each in a fresh buffer |
| Strassen.ProductsOfSums | bin/main.c:83-88 | P5 = S5·S6, P6 = S7·S8, P7 = S9·S10 as products of the quadrant sums |
| Strassen.CombineThree | bin/main.c:92-94 | three chained add_sub calls through S1 and S2 leave ((X + Y) + s2·Z) + s3·W in one quadrant of C and nothing else of C changes |
| Strassen.RecombineTop | bin/main.c:92-95 | C11 = P5 + P4 − P2 + P6 and C12 = P1 + P2 |
| Strassen.RecombineBottom | bin/main.c:96-99 | C21 = P3 + P4 and C22 = P5 + P1 − P3 − P7, with C11 and C12 left as they were |
| Strassen.Recombine | bin/main.c:92-99 | the whole 2h×2h C is the matrix glued from the four recombined quadrants |
| Strassen.ViewOfGlue | bin/main.c:52 | a 2h×2h view is determined by its four quadrant views |
| Strassen.StrassenRec | bin/main.c:42-104 | for r a power of two: at r ≤ leaf, C becomes old C + A×B (as classical_mul); above the leaf, C becomes exactly A×B |
| Strassen.CopyIn | bin/main.c:115-118 | the zeroed S×S buffer holds the row-major rows×cols source in its top-left corner and zeros elsewhere |
| Strassen.CopyRowOut | bin/main.c:125 | one memcpy: row i of the buffer lands at dst[base..base+cols], the rest of dst unchanged |
| Strassen.CopyOut | bin/main.c:124-125 | the row-major destination read as rows×cols is the top-left rows×cols corner of the buffer |
| Strassen.StrassenMul | bin/main.c:106-128 | C read row-major as n×m is the product of A (n×k) and B (k×m) |
| Matrix.StrassenC11 | bin/main.c:92-94 | P5 + P4 − P2 + P6 = A11·B11 + A12·B21 |
| Matrix.StrassenC12 | bin/main.c:95 | P1 + P2 = A11·B12 + A12·B22 |
| Matrix.StrassenC21 | bin/main.c:96 | P3 + P4 = A21·B11 + A22·B21 |
| Matrix.StrassenC22 | bin/main.c:97-99 | P5 + P1 − P3 − P7 = A21·B12 + A22·B22 |
| Matrix.BlockProduct | bin/main.c:49-52 | each quadrant of a×b is the sum of the two products of the quadrants of a and b |
| Matrix.StrassenStep | bin/main.c:64-99 | with P1..P7 formed from the quadrant sums as in the source, the recombined matrix is a×b |
| Matrix.QuadrantsDetermine | bin/main.c:52 | two 2h×2h matrices with equal quadrants are equal |
| Matrix.GlueDetermined | bin/main.c:52 | a 2h×2h matrix whose quadrants are q11, q12, q21, q22 is the matrix glued from them |
| Matrix.PaddedProduct | bin/main.c:110-125 | the n×m corner of the product of the zero-padded operands is the product of the operands |
| Matrix.DotLinearLeft | bin/main.c:30 | the dot product is linear in its left operand (used for X ± Y times Z) |
| Matrix.DotLinearRight | bin/main.c:30 | the dot product is linear in its right operand |
| Matrix.DotZeroTail | bin/main.c:26-31 | zero columns beyond k do not change a dot product (padding) |
| Addressing.AddSubAsWritten | bin/main.c:34-40 | add_sub on flat memory as written, with each pointer read as the memory from that offset on: exactly n2 entries, C[t] = A[t] + sign·B[t] for every t < n2 |
| Addressing.AddSubAgreesUnsplit | bin/main.c:92-98 | on whole compact r×r buffers (the P and S buffers of the combine step), add_sub as written gives the intended A + sign·B of their row-major readings |
| Addressing.SubOffset | bin/main.c:49 | the macro's offset of quadrant (qi, qj) is the row-major position, at stride r, of the quadrant's top-left entry (qi·h, qj·h). For a 2h×2h buffer every entry of an h×h quadrant read at that stride from there lies inside the buffer |
| Addressing.ClassicalMulAsWritten | bin/main.c:24-32 | classical_mul as written on whole compact r×r flat buffers: entry i·r + j of the result is the old entry plus Σ_k A[i·r + k]·B[k·r + j]. It covers only whole buffers, not quadrant views. Its meaning as C + A×B is proved by Addressing.ClassicalMulAgreesUnsplit |
| Addressing.ClassicalMulAgreesUnsplit | bin/main.c:24-32 | classical_mul as written on whole compact r×r buffers leaves C + A×B of their row-major readings. It is called this way when S ≤ LEAF_SIZE: line 122 passes Ap, Bp and Cp, and lines 44-47 hand them on. So the flat addressing is right for S ≤ LEAF_SIZE |
| Addressing.AddSubMisreadsQuadrants | bin/main.c:65 | for every split size h ≥ 2, S2 as written has A[0][h] + A[1][0] at (1,0) where A11 + A12 has A[1][0] + A[1][h]; the two differ exactly when A[0][h] ≠ A[1][h] |
| Clauses.CmpAbs | main.c:11-14 | returns −1, 0 or 1 exactly when \|a\| < \|b\|, \|a\| = \|b\| or \|a\| > \|b\| |
| Clauses.CmpAbsIsComparator | main.c:117 | cmp_abs is antisymmetric and transitive, as qsort needs of its comparator |
| Clauses.CheckUnsatClause | main.c:94-103 | true exactly when two literals at positions i < j < sz sum to zero; lits is not modified |
| Clauses.ComplementaryMeansBothSigns | main.c:99 | such a pair means some variable appears with both signs, or the literal 0 appears twice |
| Clauses.MissingMembers | main.c:68-76 | a value is appended by padding exactly when it is in vars and no literal has it as absolute value |
| Clauses.PadCovers | main.c:68-76 | after padding, every (non-negative) vars[j] is the absolute value of some literal |
| Clauses.Clause.MarkMentioned | main.c:66-70 | seen[j] holds exactly when some literal has absolute value vars[j] |
| Clauses.Clause.AppendUnmarked | main.c:72-76 | given room for the missing variables only (not all of vars), the old literals stay in place and the unmarked vars[j] follow in increasing j; the buffer is not replaced |
| Clauses.Clause.CountMissing | main.c:72-76 | the number of appends the loop makes, which is the length of the missing-variable list |
| Clauses.Clause.Pad | main.c:65-77 | the literals become the old literals followed by the missing variables in order; the buffer is kept whenever they fit, and otherwise replaced by a fresh larger one, grown only when the source would overrun it |
| Clauses.FirstMatch | main.c:83-87 | the first j with vars[j] = v, or none when no vars[j] equals v |
| Clauses.Forbidden | main.c:80 | n + 1 entries and entry 0 is false |
| Clauses.ForbiddenUnmatched | main.c:81-89 | entry j+1 is false when no literal has vars[j] as its first matching variable |
| Clauses.ForbiddenLastWins | main.c:81-89 | otherwise entry j+1 is (lit < 0) for the last such literal |
| Clauses.Clause.BuildForbidden | main.c:79-91 | a fresh array equal to the forbidden vector of the clause's literals |
| Clauses.ReadCapacity | main.c:32-38 | the capacity read_clauses leaves: 8 below eight literals, then the count rounded down to a multiple of 8, plus 7; never below the count |
| Clauses.Clause.constructor | main.c:31-39 | a clause holding the literals read, in a buffer of ReadCapacity ints |
| Clauses.PadOverrunsReadBuffer | main.c:72-76 | for the clause `1` and nine or more variables 1 < …, padding needs more ints than the buffer read_clauses gave it |
| Clauses.RecordLiterals | main.c:41-43 | max_var becomes the maximum of its old value and every \|lit\|; the seen table gains exactly the \|lit\| below 1024 |
| Clauses.DistinctVars | main.c:50-56 | a fresh array of length total holding the seen variables of [1, max_var] below 1024, in order |
| Clauses.SeenBelowMembers | main.c:52-53 | v is listed exactly when 1 ≤ v ≤ max_var, v < 1024 and v was seen |
| Clauses.SeenBelowIncreasing | main.c:55-56 | the variable list is strictly increasing |
| Clauses.ListedVariables | main.c:41-56 | recording literals into an empty table and listing gives exactly the \|lit\| with 1 ≤ \|lit\| < 1024; a literal with \|lit\| ≥ 1024 raises max_var but is never listed |

## Left out

- OpenMP (the pragmas at bin/main.c:25, 37, 75-90 and 120-121) is left out and the model runs sequentially. The seven tasks write disjoint P buffers, so their order does not matter.
  - The `parallel for collapse(2) schedule(static)` at bin/main.c:25 splits the (i, k) iterations into chunks that can end inside a row. Two threads can then hold the same i with different k and race on `C[i*r + j] +=` (line 30). The sequential model does not capture this race.
- Floating point is left out. Entries are `int` rather than `double`, so the identities hold exactly and no rounding is modelled.
- Both `main` functions are left out, together with the input loop of `read_clauses` (main.c:21-48), `printf`/`scanf`/`fgets`/`strtok`/`atoi`, and the thresholding `V[i] > 0.0` (bin/main.c:165-169).
  - Lines 41-43 are modelled one clause of literals at a time (`RecordLiterals`).
  - bin/main.c:153 passes Q itself as the k×m operand. strassen_mul reads it as an m×n row-major matrix, not as the transpose of Q, which the comment at line 106 assumes. This is not modelled.
- `malloc`/`calloc`/`free` become fresh Dafny arrays. Allocation failure (bin/main.c:12) and freeing are left out.
- The `realloc` of the clause array (main.c:26-29) is left out. Buffer growth of a clause's literals is modelled only as the capacity it yields (`ReadCapacity`).
- `qsort` (main.c:117) is left out. Only its comparator and the comparator's laws are modelled.
- `memcpy` is modelled as the explicit copy loops `CopyIn`, `CopyOut` and `CopyRowOut`.
- Strassen.NextPow2: requires x ≤ 2^30, because the `int` doubling of `p` overflows above that. Strassen.StrassenMul has the same bound on n, k and m.
- Strassen.StrassenRec: requires C to be exactly an r×r buffer of its own, distinct from A and B. The source only ever calls it that way: the P buffers at bin/main.c:60-62 and Cp at line 113. The model allows A and B to alias each other; the source never does this, because lines 111-118 copy each operand into its own buffer.
- Strassen.StrassenMul: requires C to be distinct from A and from B. The n·k, k·m and n·m lengths are exact.
- Strassen.StrassenMul: does not model the `int` overflow of the size arithmetic. The model computes `i*S` (bin/main.c:116 and 125) and `h*h` (line 54) exactly, while in the source `i*S` overflows as soon as (n−1)·S or (k−1)·S reaches 2^31, for example n = 3 with m = 2^30, which gives S = 2^30. `h*h` overflows from S = 2^17. The bound of 2^30 on n, k and m only keeps `next_pow2` in range.
- Strassen.StrassenMul: `kb` is unused, as in the source.
- Strassen.AddSub: `sign` may be any integer, not only ±1.
- Clauses.Abs: unbounded, so `abs(INT_MIN)` overflow is not modelled. The `av >= 0` test at main.c:43 therefore always holds.
- Clauses.PadCovers: requires the variables to be non-negative, as the distinct-variable list always is.
- Clauses.CheckUnsatClause: does not model the `int` overflow of `lits[i] + lits[j]` (main.c:99). Two `INT_MIN` literals overflow in the source, while the model's sum is exact and nonzero, so it does not report that pair.
- Clauses.DistinctVars: does not model the `int` overflow of `v++` (main.c:52 and 55). When a literal is ±2147483647, `max_var` is `INT_MAX` and `v <= max_var` never fails, so the source never finishes these loops. The model terminates and lists the variables below 1024. Clauses.ListedVariables, which says such a literal is never listed, describes the model in that case, not the source.

## Findings

| source | as written | input that shows it | evidently intended | confidence | as-written member | corrected member |
|---|---|---|---|---|---|---|
| bin/main.c:49 | at the first split (r = S), the quadrant pointers are right for the parent stride S. But add_sub (lines 35-39) and classical_mul (lines 26-30) read and write them as compact h×h blocks with stride h, so every split level (S > LEAF_SIZE, i.e. S ≥ 128) computes with the wrong entries. Below the first split the macro's own offsets are wrong too. `strassen_rec(A11, S1, P1, h)` (line 76) computes `SUB(A11,1,0) = A11 + (h/2)·h`, but rows of A11 are S = 2h apart in Ap, so the quadrant starts at `A11 + (h/2)·2h` (S ≥ 256 with LEAF_SIZE 64) | n = k = m = 128 (so S = 128, split at h = 64 with LEAF_SIZE 64) with A[0][64] ≠ A[1][64]: S2 = A11 + A12 gets A[0][64] + A[1][0] at (1,0) instead of A[1][0] + A[1][64] | operands read as quadrant views with the parent stride | high, not executed | Addressing.AddSubMisreadsQuadrants | Strassen.QuadrantSum |
| main.c:72-76 | pad_clause appends with `c->lit[c->sz++]` but never grows the buffer, which read_clauses sized for the literals read (8 ints below eight literals) | clauses `1` and `2 3 4 5 6 7 8 9`: clause 1 has 8 ints and padding appends 8 more after its 1 literal, writing lit[8] | grow the buffer before appending | high, not executed | Clauses.PadOverrunsReadBuffer | Clauses.Clause.Pad |

For the second row, `Clauses.Clause.Pad` counts the variables to append (`CountMissing`). It grows the buffer (`Grow`) to `sz` plus that count exactly when the buffer is smaller than that, which is exactly when the source would write past its end. Otherwise it keeps the buffer, as its last `ensures` states. This is the only place where the model adds a step that the source does not have.
