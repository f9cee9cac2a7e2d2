/**
 The clause preprocessing helpers of main.c: a clause is a buffer of integer
 literals (a positive literal v stands for variable v, a negative one for its
 negation) together with the number of literals in use. Before a clause is
 padded it is checked for a complementary pair, padded with the variables it
 does not mention, sorted by absolute value, and turned into a vector of
 forbidden signs, one per variable.
 */
module Clauses {

  datatype Option<T> = None | Some(value: T)

  /** C's abs, without the overflow of abs(INT_MIN). */
  function Abs(x: int): nat {
    if x < 0 then -x else x
  }

  // ---------------------------------------------------------------------
  // cmp_abs
  // ---------------------------------------------------------------------

  /** The qsort comparator: the sign of |a| − |b|, as (x > y) − (x < y). */
  function CmpAbs(a: int, b: int): (r: int)
    ensures r == -1 <==> Abs(a) < Abs(b)
    ensures r == 0 <==> Abs(a) == Abs(b)
    ensures r == 1 <==> Abs(a) > Abs(b)
  {
    var x, y := Abs(a), Abs(b);
    (if x > y then 1 else 0) - (if x < y then 1 else 0)
  }

  /** cmp_abs is a consistent comparator: antisymmetric and transitive, as qsort needs. */
  lemma CmpAbsIsComparator(a: int, b: int, c: int)
    ensures CmpAbs(a, b) == -CmpAbs(b, a)
    ensures CmpAbs(a, b) <= 0 && CmpAbs(b, c) <= 0 ==> CmpAbs(a, c) <= 0
    ensures CmpAbs(a, b) == 0 && CmpAbs(b, c) == 0 ==> CmpAbs(a, c) == 0
  {
  }

  // ---------------------------------------------------------------------
  // check_unsat_clause
  // ---------------------------------------------------------------------

  /** Two literals at distinct positions that sum to zero. */
  predicate HasComplementaryPair(s: seq<int>) {
    exists i, j :: 0 <= i < j < |s| && s[i] + s[j] == 0
  }

  /** The complementary test over the first sz literals, with its early exit. */
  method CheckUnsatClause(lits: array<int>, sz: int) returns (unsat: bool)
    requires 0 <= sz <= lits.Length
    ensures unsat <==> HasComplementaryPair(lits[..sz])
  {
    ghost var s := lits[..sz];
    for i := 0 to sz
      invariant forall i', j' :: 0 <= i' < i && i' < j' < sz ==> s[i'] + s[j'] != 0
    {
      for j := i + 1 to sz
        invariant forall j' :: i < j' < j ==> s[i] + s[j'] != 0
      {
        if lits[i] + lits[j] == 0 {
          assert s[i] + s[j] == 0;
          return true;
        }
      }
    }
    return false;
  }

  /**
   A complementary pair is a variable occurring with both signs, or the
   literal 0 occurring twice (0 + 0 == 0 as well).
   */
  lemma ComplementaryMeansBothSigns(s: seq<int>)
    ensures HasComplementaryPair(s) <==>
      (exists v :: v > 0 && v in s && -v in s) || multiset(s)[0] >= 2
  {
    if HasComplementaryPair(s) {
      var i, j :| 0 <= i < j < |s| && s[i] + s[j] == 0;
      PairHasBothSigns(s, i, j);
    }
    if exists v :: v > 0 && v in s && -v in s {
      var v :| v > 0 && v in s && -v in s;
      var p, q :| 0 <= p < |s| && 0 <= q < |s| && s[p] == v && s[q] == -v;
      if p < q { assert s[p] + s[q] == 0; } else { assert s[q] + s[p] == 0; }
    } else if multiset(s)[0] >= 2 {
      ZerosGivePair(s);
    }
  }

  /** One direction: a pair summing to zero is a variable with both signs, or two zeros. */
  lemma PairHasBothSigns(s: seq<int>, i: int, j: int)
    requires 0 <= i < j < |s| && s[i] + s[j] == 0
    ensures (s[i] > 0 && s[i] in s && -s[i] in s) || (s[j] > 0 && s[j] in s && -s[j] in s)
            || multiset(s)[0] >= 2
  {
    if s[i] == 0 {
      assert s == s[..j] + s[j..];
      assert s[i] in s[..j] && s[j] in s[j..];
      assert multiset(s) == multiset(s[..j]) + multiset(s[j..]);
    }
  }

  /** The other: the literal 0 twice is a pair summing to zero. */
  lemma ZerosGivePair(s: seq<int>)
    requires multiset(s)[0] >= 2
    ensures HasComplementaryPair(s)
  {
    assert 0 in multiset(s);
    var i :| 0 <= i < |s| && s[i] == 0;
    assert s == s[..i] + [s[i]] + s[i+1..];
    assert multiset(s) == multiset(s[..i]) + multiset([s[i]]) + multiset(s[i+1..]);
    if 0 in s[..i] {
      var p :| 0 <= p < i && s[..i][p] == 0;
      assert s[p] + s[i] == 0;
    } else {
      assert 0 in multiset(s[i+1..]);
      var q :| 0 <= q < |s[i+1..]| && s[i+1..][q] == 0;
      assert s[i] + s[i + 1 + q] == 0;
    }
  }

  // ---------------------------------------------------------------------
  // Padding and the forbidden-sign vector
  // ---------------------------------------------------------------------

  /** Variable v is the absolute value of some literal of the clause. */
  predicate Occurs(lits: seq<int>, v: int) {
    exists i :: 0 <= i < |lits| && Abs(lits[i]) == v
  }

  /** The variables matching no literal, in the order of vars: what pad_clause appends. */
  function Missing(lits: seq<int>, vars: seq<int>): seq<int>
    decreases |vars|
  {
    if |vars| == 0 then []
    else Missing(lits, vars[..|vars| - 1])
         + (if Occurs(lits, vars[|vars| - 1]) then [] else [vars[|vars| - 1]])
  }

  /** Missing keeps exactly the variables of vars that no literal mentions. */
  lemma {:induction false} MissingMembers(lits: seq<int>, vars: seq<int>, v: int)
    ensures v in Missing(lits, vars) <==> v in vars && !Occurs(lits, v)
    decreases |vars|
  {
    if |vars| > 0 {
      var init := vars[..|vars| - 1];
      MissingMembers(lits, init, v);
      assert vars == init + [vars[|vars| - 1]];
    }
  }

  /** Missing distributes over a split of the variable list. */
  lemma {:induction false} MissingConcat(lits: seq<int>, a: seq<int>, b: seq<int>)
    ensures Missing(lits, a + b) == Missing(lits, a) + Missing(lits, b)
    decreases |b|
  {
    if |b| > 0 {
      var init := b[..|b| - 1];
      assert (a + b)[..|a + b| - 1] == a + init;
      MissingConcat(lits, a, init);
    } else {
      assert a + b == a;
    }
  }

  /** A prefix of the variable list has no more missing variables than the whole list. */
  lemma MissingPrefix(lits: seq<int>, vars: seq<int>, j: nat)
    requires j <= |vars|
    ensures |Missing(lits, vars[..j])| <= |Missing(lits, vars)|
  {
    MissingConcat(lits, vars[..j], vars[j..]);
    assert vars[..j] + vars[j..] == vars;
  }

  /**
   After padding, every variable of the (non-negative) list occurs as the
   absolute value of a literal of the clause.
   */
  lemma PadCovers(lits: seq<int>, vars: seq<int>)
    requires forall j :: 0 <= j < |vars| ==> vars[j] >= 0
    ensures forall j :: 0 <= j < |vars| ==> Occurs(lits + Missing(lits, vars), vars[j])
  {
    var padded := lits + Missing(lits, vars);
    forall j | 0 <= j < |vars|
      ensures Occurs(padded, vars[j])
    {
      var v := vars[j];
      if Occurs(lits, v) {
        var i :| 0 <= i < |lits| && Abs(lits[i]) == v;
        assert padded[i] == lits[i];
      } else {
        MissingMembers(lits, vars, v);
        var k :| 0 <= k < |Missing(lits, vars)| && Missing(lits, vars)[k] == v;
        assert padded[|lits| + k] == v && Abs(v) == v;
      }
    }
  }

  /** Index of the first variable equal to v, as the inner loop of build_forbidden finds it. */
  function FirstMatch(vars: seq<int>, v: int): (r: Option<nat>)
    ensures r.Some? ==> r.value < |vars| && vars[r.value] == v
                        && forall j :: 0 <= j < r.value ==> vars[j] != v
    ensures r.None? ==> forall j :: 0 <= j < |vars| ==> vars[j] != v
  {
    if |vars| == 0 then None
    else if vars[0] == v then Some(0)
    else match FirstMatch(vars[1..], v)
      case None => None
      case Some(j) => Some(j + 1)
  }

  /**
   The forbidden-sign vector: n + 1 entries, all false, then in literal
   order each literal sets the entry after its first matching variable to
   whether it is negative.
   */
  function Forbidden(lits: seq<int>, vars: seq<int>): (a: seq<bool>)
    ensures |a| == |vars| + 1 && !a[0]
    decreases |lits|
  {
    if |lits| == 0 then seq(|vars| + 1, _ => false)
    else
      var prev := Forbidden(lits[..|lits| - 1], vars);
      var l := lits[|lits| - 1];
      match FirstMatch(vars, Abs(l))
      case None => prev
      case Some(j) => prev[j + 1 := l < 0]
  }

  /** Entry j + 1 of the forbidden vector stays false when no literal first matches vars[j]. */
  lemma {:induction false} ForbiddenUnmatched(lits: seq<int>, vars: seq<int>, j: nat)
    requires j < |vars|
    requires forall i :: 0 <= i < |lits| ==> FirstMatch(vars, Abs(lits[i])) != Some(j)
    ensures !Forbidden(lits, vars)[j + 1]
    decreases |lits|
  {
    if |lits| > 0 {
      var init := lits[..|lits| - 1];
      assert forall i :: 0 <= i < |init| ==> init[i] == lits[i];
      ForbiddenUnmatched(init, vars, j);
    }
  }

  /**
   Otherwise entry j + 1 is the sign of the LAST literal whose first
   matching variable is vars[j]: later literals on other variables leave it.
   */
  lemma {:induction false} ForbiddenLastWins(lits: seq<int>, vars: seq<int>, j: nat, i: nat)
    requires j < |vars| && i < |lits|
    requires FirstMatch(vars, Abs(lits[i])) == Some(j)
    requires forall i' :: i < i' < |lits| ==> FirstMatch(vars, Abs(lits[i'])) != Some(j)
    ensures Forbidden(lits, vars)[j + 1] == (lits[i] < 0)
    decreases |lits|
  {
    if i < |lits| - 1 {
      var init := lits[..|lits| - 1];
      assert forall i' :: 0 <= i' < |init| ==> init[i'] == lits[i'];
      ForbiddenLastWins(init, vars, j, i);
    }
  }

  // ---------------------------------------------------------------------
  // The clause buffer
  // ---------------------------------------------------------------------

  /**
   Capacity of a clause buffer once `count` literals were read into it:
   it starts with 8 ints and, before the literal at position s is stored
   with s % 8 == 7, is grown to s + 8 ints.
   */
  function ReadCapacity(count: nat): (cap: nat)
    ensures count < 8 ==> cap == 8
    ensures count >= 8 ==> cap == count - count % 8 + 7
    ensures count <= cap && (count % 8 != 7 ==> count < cap)
  {
    if count == 0 then 8
    else
      var s := count - 1;
      if s % 8 == 7 then s + 8 else ReadCapacity(s)
  }

  /**
   For the clause `1` when the clauses mention at least nine variables 1 < …,
   pad_clause appends more literals than the 8 ints read_clauses gave it.
   */
  lemma PadOverrunsReadBuffer(vars: seq<int>)
    requires |vars| >= 9 && vars[0] == 1
    requires forall j :: 1 <= j < |vars| ==> vars[j] > 1
    ensures ReadCapacity(1) == 8
    ensures |[1] + Missing([1], vars)| > ReadCapacity(1)
  {
    assert Occurs([1], 1) by { assert Abs([1][0]) == 1; }
    assert Missing([1], [vars[0]]) == [] by {
      assert [vars[0]][..0] == [];
    }
    MissingConcat([1], [vars[0]], vars[1..]);
    assert [vars[0]] + vars[1..] == vars;
    forall j | 0 <= j < |vars[1..]|
      ensures !Occurs([1], vars[1..][j])
    {
      assert vars[1..][j] == vars[j + 1] > 1;
    }
    MissingHasAll([1], vars[1..]);
  }

  /** When no variable of the list is mentioned, Missing is the whole list. */
  lemma {:induction false} MissingHasAll(lits: seq<int>, vars: seq<int>)
    requires forall j :: 0 <= j < |vars| ==> !Occurs(lits, vars[j])
    ensures Missing(lits, vars) == vars
    decreases |vars|
  {
    if |vars| > 0 {
      var init := vars[..|vars| - 1];
      MissingHasAll(lits, init);
      assert init + [vars[|vars| - 1]] == vars;
    }
  }

  /** A clause: a literal buffer and the number of literals in use. */
  class Clause {
    var lit: array<int>
    var sz: int

    ghost predicate Valid()
      reads this
    {
      0 <= sz <= lit.Length
    }

    /** The literals in use. */
    function Literals(): seq<int>
      reads this, lit
      requires Valid()
    {
      lit[..sz]
    }

    /** A clause as read_clauses leaves it: the literals read, in a buffer of ReadCapacity ints. */
    constructor (lits: seq<int>)
      ensures Valid() && Literals() == lits
      ensures lit.Length == ReadCapacity(|lits|) && fresh(lit)
    {
      lit := new int[ReadCapacity(|lits|)]((k: nat) => if k < |lits| then lits[k] else 0);
      sz := |lits|;
    }

    /**
     pad_clause: mark the variables the literals mention, then append each
     unmarked variable in order. The buffer is grown first exactly when the
     appended variables would not fit in it.
     */
    method Pad(vars: seq<int>)
      requires Valid()
      modifies this, lit
      ensures Valid()
      ensures Literals() == old(Literals()) + Missing(old(Literals()), vars)
      ensures old(sz) + |Missing(old(Literals()), vars)| <= old(lit.Length) ==> lit == old(lit)
      ensures lit == old(lit) || fresh(lit)
    {
      var seen := MarkMentioned(vars);
      var missing := CountMissing(vars, seen);
      if lit.Length < sz + missing {
        Grow(sz + missing);
      }
      AppendUnmarked(vars, seen);
    }

    /** The number of unmarked variables, which is how many pad_clause appends. */
    method CountMissing(vars: seq<int>, seen: array<bool>) returns (missing: int)
      requires Valid() && seen.Length == |vars|
      requires forall j :: 0 <= j < |vars| ==> (seen[j] <==> Occurs(Literals(), vars[j]))
      ensures missing == |Missing(Literals(), vars)|
    {
      missing := 0;
      for j := 0 to |vars|
        invariant missing == |Missing(Literals(), vars[..j])|
      {
        assert vars[..j + 1][..j] == vars[..j];
        if !seen[j] {
          missing := missing + 1;
        }
      }
      assert vars[..|vars|] == vars;
    }

    /** The first phase of pad_clause: seen[j] records whether some literal has |literal| == vars[j]. */
    method MarkMentioned(vars: seq<int>) returns (seen: array<bool>)
      requires Valid()
      ensures fresh(seen) && seen.Length == |vars|
      ensures forall j :: 0 <= j < |vars| ==> (seen[j] <==> Occurs(Literals(), vars[j]))
    {
      ghost var lits := Literals();
      var n := |vars|;
      seen := new bool[n](_ => false);
      for i := 0 to sz
        modifies seen
        invariant forall j :: 0 <= j < n ==> (seen[j] <==> Occurs(lits[..i], vars[j]))
      {
        for j := 0 to n
          modifies seen
          invariant forall j' :: 0 <= j' < n ==>
            (seen[j'] <==> Occurs(lits[..i], vars[j']) || (j' < j && Abs(lits[i]) == vars[j']))
        {
          if Abs(lit[i]) == vars[j] {
            seen[j] := true;
          }
        }
        assert lits[..i + 1] == lits[..i] + [lits[i]];
      }
      assert lits[..sz] == lits;
    }

    /** The second phase: append each unmarked variable, in order, after the literals. */
    method AppendUnmarked(vars: seq<int>, seen: array<bool>)
      requires Valid() && seen.Length == |vars|
      requires sz + |Missing(Literals(), vars)| <= lit.Length
      requires forall j :: 0 <= j < |vars| ==> (seen[j] <==> Occurs(Literals(), vars[j]))
      modifies this, lit
      ensures Valid() && lit == old(lit)
      ensures Literals() == old(Literals()) + Missing(old(Literals()), vars)
    {
      ghost var lits := Literals();
      var n := |vars|;
      for j := 0 to n
        invariant Valid() && lit == old(lit) && |lits| + |Missing(lits, vars)| <= lit.Length
        invariant Literals() == lits + Missing(lits, vars[..j])
      {
        assert vars[..j + 1][..j] == vars[..j];
        if !seen[j] {
          MissingPrefix(lits, vars, j + 1);
          ghost var before := Literals();
          lit[sz] := vars[j];
          sz := sz + 1;
          assert Literals() == before + [vars[j]];
        }
      }
      assert vars[..n] == vars;
    }

    /** Move the literals into a fresh buffer of `capacity` ints. */
    method Grow(capacity: int)
      requires Valid() && sz <= capacity
      modifies this
      ensures Valid() && lit.Length == capacity && sz == old(sz)
      ensures Literals() == old(Literals()) && fresh(lit)
    {
      var bigger := new int[capacity];
      for k := 0 to sz
        modifies bigger
        invariant bigger[..k] == lit[..k]
      {
        bigger[k] := lit[k];
      }
      lit := bigger;
    }

    /**
     build_forbidden: a fresh vector of n + 1 booleans, entry j + 1 set by
     the literals on variable vars[j] in turn.
     */
    method BuildForbidden(vars: seq<int>) returns (a: array<bool>)
      requires Valid()
      ensures fresh(a) && a[..] == Forbidden(Literals(), vars)
    {
      var n := |vars|;
      a := new bool[n + 1](_ => false);
      for i := 0 to sz
        invariant a[..] == Forbidden(lit[..i], vars)
      {
        assert lit[..i + 1][..i] == lit[..i];
        var l := lit[i];
        var j := 0;
        while j < n
          invariant 0 <= j <= n
          invariant forall j' :: 0 <= j' < j ==> vars[j'] != Abs(l)
          invariant a[..] == Forbidden(lit[..i], vars)
        {
          if Abs(l) == vars[j] {
            assert FirstMatch(vars, Abs(l)) == Some(j);
            a[j + 1] := l < 0;
            break;
          }
          j := j + 1;
        }
        if j == n {
          assert FirstMatch(vars, Abs(l)) == None;
        }
      }
      assert lit[..sz] == Literals();
    }
  }

  // ---------------------------------------------------------------------
  // The variable table of read_clauses
  // ---------------------------------------------------------------------

  /** The seen table after the literals: each |l| below 1024 is marked. */
  function Mark(seen: seq<bool>, lits: seq<int>): (r: seq<bool>)
    requires |seen| == 1024
    ensures |r| == 1024
  {
    seq(1024, v requires 0 <= v < 1024 => seen[v] || Occurs(lits, v))
  }

  /**
   Lines 41-43 for each literal of a clause: raise max_var to |lit| and
   mark |lit| in the seen table when it is below 1024.
   */
  method RecordLiterals(varSeen: array<bool>, maxVar: int, lits: seq<int>) returns (newMax: int)
    requires varSeen.Length == 1024
    modifies varSeen
    ensures newMax >= maxVar && forall t :: 0 <= t < |lits| ==> Abs(lits[t]) <= newMax
    ensures newMax == maxVar || exists t :: 0 <= t < |lits| && Abs(lits[t]) == newMax
    ensures varSeen[..] == Mark(old(varSeen[..]), lits)
  {
    ghost var seen0 := varSeen[..];
    newMax := maxVar;
    for t := 0 to |lits|
      invariant newMax >= maxVar && forall t' :: 0 <= t' < t ==> Abs(lits[t']) <= newMax
      invariant newMax == maxVar || exists t' :: 0 <= t' < t && Abs(lits[t']) == newMax
      invariant varSeen[..] == Mark(seen0, lits[..t])
    {
      var av := Abs(lits[t]);
      if av > newMax {
        newMax := av;
      }
      if 0 <= av < 1024 {
        varSeen[av] := true;
      }
      assert lits[..t + 1] == lits[..t] + [lits[t]];
    }
    assert lits[..|lits|] == lits;
  }

  /** The seen variables in [1, hi) below 1024, in increasing order. */
  function SeenBelow(seen: seq<bool>, hi: int): seq<int>
    requires |seen| == 1024
    decreases hi
  {
    if hi <= 1 then []
    else SeenBelow(seen, hi - 1) + (if hi - 1 < 1024 && seen[hi - 1] then [hi - 1] else [])
  }

  /** A value is listed exactly when it lies in [1, hi), is below 1024 and was seen. */
  lemma {:induction false} SeenBelowMembers(seen: seq<bool>, hi: int, v: int)
    requires |seen| == 1024
    ensures v in SeenBelow(seen, hi) <==> 1 <= v < hi && v < 1024 && seen[v]
    decreases hi
  {
    if hi > 1 {
      SeenBelowMembers(seen, hi - 1, v);
    }
  }

  /** The list is strictly increasing. */
  lemma {:induction false} SeenBelowIncreasing(seen: seq<bool>, hi: int)
    requires |seen| == 1024
    ensures forall p, q :: 0 <= p < q < |SeenBelow(seen, hi)| ==> SeenBelow(seen, hi)[p] < SeenBelow(seen, hi)[q]
    decreases hi
  {
    if hi > 1 {
      var s := SeenBelow(seen, hi - 1);
      SeenBelowIncreasing(seen, hi - 1);
      forall p | 0 <= p < |s|
        ensures s[p] < hi - 1
      {
        SeenBelowMembers(seen, hi - 1, s[p]);
      }
    }
  }

  /** A shorter bound lists a prefix. */
  lemma {:induction false} SeenBelowPrefix(seen: seq<bool>, lo: int, hi: int)
    requires |seen| == 1024 && lo <= hi
    ensures SeenBelow(seen, lo) <= SeenBelow(seen, hi)
    decreases hi - lo
  {
    if lo < hi {
      SeenBelowPrefix(seen, lo, hi - 1);
    }
  }

  /**
   Lines 50-56: count the seen variables in [1, max_var] below 1024, then
   list them in a fresh array of that length.
   */
  method DistinctVars(varSeen: array<bool>, maxVar: int) returns (vars: array<int>, total: int)
    requires varSeen.Length == 1024
    ensures fresh(vars) && vars.Length == total
    ensures vars[..] == SeenBelow(varSeen[..], maxVar + 1)
  {
    ghost var seen := varSeen[..];
    total := 0;
    var v := 1;
    while v <= maxVar
      invariant v <= maxVar + 1 || v == 1
      invariant total == |SeenBelow(seen, v)|
    {
      if v < 1024 && varSeen[v] {
        total := total + 1;
      }
      v := v + 1;
    }
    assert SeenBelow(seen, v) == SeenBelow(seen, maxVar + 1);
    vars := new int[total];
    var i := 0;
    v := 1;
    while v <= maxVar
      invariant v <= maxVar + 1 || v == 1
      invariant i <= total
      invariant i == |SeenBelow(seen, v)| && vars[..i] == SeenBelow(seen, v)
    {
      SeenBelowPrefix(seen, v + 1, maxVar + 1);
      if v < 1024 && varSeen[v] {
        assert SeenBelow(seen, v + 1) == SeenBelow(seen, v) + [v];
        vars[i] := v;
        assert vars[..i + 1] == vars[..i] + [v];
        i := i + 1;
      } else {
        assert SeenBelow(seen, v + 1) == SeenBelow(seen, v);
      }
      v := v + 1;
    }
    assert SeenBelow(seen, v) == SeenBelow(seen, maxVar + 1);
  }

  /**
   Read_clauses end to end, for literals recorded into an empty table: the
   variable list holds exactly the |l| with 1 <= |l| < 1024, so a literal
   with |l| >= 1024 raises max_var but is never listed.
   */
  lemma ListedVariables(lits: seq<int>, maxVar: int, v: int)
    requires forall t :: 0 <= t < |lits| ==> Abs(lits[t]) <= maxVar
    ensures v in SeenBelow(Mark(seq(1024, _ => false), lits), maxVar + 1)
        <==> 1 <= v < 1024 && Occurs(lits, v)
  {
    var seen := Mark(seq(1024, _ => false), lits);
    SeenBelowMembers(seen, maxVar + 1, v);
    if Occurs(lits, v) {
      var t :| 0 <= t < |lits| && Abs(lits[t]) == v;
      assert v <= maxVar;
    }
  }
}
