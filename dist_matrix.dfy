/** A distance matrix and the read-only checks on it: the five validity conditions,
    the ordered validation that reports the first one violated, and the four-point test
    for additivity. Each check is a scan with early return, proved against a quantified
    predicate. */
module DistanceMatrix {

  import opened Graph

  /** d[i][j] is the distance between elements i and j. Rows need not have equal length. */
  type Matrix = seq<seq<real>>

  // ---------------------------------------------------------------- the conditions

  ghost predicate IsSquare(d: Matrix)
  {
    forall i :: 0 <= i < |d| ==> |d[i]| == |d|
  }

  ghost predicate IsNonNegative(d: Matrix)
  {
    forall i, j :: 0 <= i < |d| && 0 <= j < |d[i]| ==> d[i][j] >= 0.0
  }

  /** Every pair below the diagonal can be compared with its mirror image: row i holds
      at least i entries, and every row but the last reaches column |d| - 1. */
  ghost predicate MirrorIndexable(d: Matrix)
  {
    (forall i :: 0 <= i < |d| ==> i <= |d[i]|) &&
    (forall j :: 0 <= j < |d| - 1 ==> |d| <= |d[j]|)
  }

  ghost predicate IsSymmetric(d: Matrix)
  {
    forall i, j :: 0 <= j < i < |d| && j < |d[i]| && i < |d[j]| ==> d[i][j] == d[j][i]
  }

  ghost predicate HasDiagonal(d: Matrix)
  {
    forall i :: 0 <= i < |d| ==> i < |d[i]|
  }

  ghost predicate HasZeroDiagonal(d: Matrix)
  {
    forall i :: 0 <= i < |d| && i < |d[i]| ==> d[i][i] == 0.0
  }

  /** The triangle scan reads d[i][k] and, for every column j of row i, d[k][j] (k < i). */
  ghost predicate TriangleIndexable(d: Matrix)
  {
    forall i, k :: 0 <= k < i < |d| ==> k < |d[i]| && |d[i]| <= |d[k]|
  }

  /** Triple (i, j, k), k < i, breaks the triangle inequality as the scan tests it. */
  ghost predicate TriangleViolation(d: Matrix, i: int, j: int, k: int)
  {
    0 <= k < i < |d| && 0 <= j < |d[i]| && k < |d[i]| && j < |d[k]| &&
    d[i][j] + d[k][j] < d[i][k]
  }

  ghost predicate SatisfiesTriangle(d: Matrix)
  {
    forall i, j, k :: !TriangleViolation(d, i, j, k)
  }

  /** The scan visits i, then k, then j: (i', k', j') is visited before (i, k, j). */
  ghost predicate TriangleBefore(i': int, j': int, k': int, i: int, j: int, k: int)
  {
    i' < i || (i' == i && (k' < k || (k' == k && j' < j)))
  }

  /** (i, j, k) is the first violation the scan meets. */
  ghost predicate FirstTriangleViolation(d: Matrix, i: int, j: int, k: int)
  {
    TriangleViolation(d, i, j, k) &&
    forall i', j', k' :: TriangleBefore(i', j', k', i, j, k) ==> !TriangleViolation(d, i', j', k')
  }

  // ---------------------------------------------------------------- the scans

  /** A copy of d, row by row; what the caller does with either afterwards cannot reach
      the other. */
  method Clone(d: Matrix) returns (dc: Matrix)
    ensures dc == d
  {
    dc := seq(|d|, _ => []);
    for i := 0 to |d|
      invariant |dc| == |d| && forall i' :: 0 <= i' < i ==> dc[i'] == d[i']
    {
      var row := [];
      for j := 0 to |d[i]|
        invariant row == d[i][..j]
      {
        row := row + [d[i][j]];
      }
      dc := dc[i := row];
    }
  }

  method Square(d: Matrix) returns (ok: bool)
    ensures ok <==> IsSquare(d)
  {
    for i := 0 to |d|
      invariant forall i' :: 0 <= i' < i ==> |d[i']| == |d|
    {
      if |d[i]| != |d| {
        return false;
      }
    }
    return true;
  }

  method NonNegative(d: Matrix) returns (ok: bool)
    ensures ok <==> IsNonNegative(d)
  {
    for i := 0 to |d|
      invariant forall i', j :: 0 <= i' < i && 0 <= j < |d[i']| ==> d[i'][j] >= 0.0
    {
      for j := 0 to |d[i]|
        invariant forall j' :: 0 <= j' < j ==> d[i][j'] >= 0.0
      {
        if d[i][j] < 0.0 {
          return false;
        }
      }
    }
    return true;
  }

  // On a ragged matrix the next three scans can index past the end of a row, which
  // panics. Each returns `panicked` exactly when the scan reaches such an index before
  // it finds a failing entry, and each is the plain check on a matrix whose rows are
  // long enough.

  /** Row i of the symmetry scan passes: di[:i] exists, and every d[i][j], j < i, has a
      mirror image d[j][i] equal to it. */
  ghost predicate MirrorRowPasses(d: Matrix, i: int)
    requires 0 <= i < |d|
  {
    i <= |d[i]| && forall j :: 0 <= j < i ==> i < |d[j]| && d[i][j] == d[j][i]
  }

  /** The symmetry scan reaches row i and panics there: di[:i] is out of range, or
      d[j][i] is, for a j whose earlier columns all compared equal. */
  ghost predicate MirrorRowPanics(d: Matrix, i: int)
    requires 0 <= i < |d|
  {
    (forall i' :: 0 <= i' < i ==> MirrorRowPasses(d, i')) &&
    (|d[i]| < i ||
     exists j :: 0 <= j < i && |d[j]| <= i &&
       forall j' :: 0 <= j' < j ==> i < |d[j']| && d[i][j'] == d[j'][i])
  }

  /** On a matrix with long enough rows the symmetry scan cannot panic and passes exactly
      on a symmetric matrix. */
  lemma MirrorScanIndexable(d: Matrix)
    requires MirrorIndexable(d)
    ensures (forall i :: 0 <= i < |d| ==> MirrorRowPasses(d, i)) <==> IsSymmetric(d)
    ensures forall i :: 0 <= i < |d| ==> !MirrorRowPanics(d, i)
  {
    if IsSymmetric(d) {
      forall i | 0 <= i < |d|
        ensures MirrorRowPasses(d, i)
      {
        forall j | 0 <= j < i
          ensures i < |d[j]| && d[i][j] == d[j][i]
        {
          assert j < |d[i]| && i < |d[j]|;
        }
      }
    } else {
      var i, j :| 0 <= j < i < |d| && j < |d[i]| && i < |d[j]| && d[i][j] != d[j][i];
      assert !MirrorRowPasses(d, i);
    }
  }

  /** Only the pairs below the diagonal are compared with their mirror images. */
  method Symmetric(d: Matrix) returns (ok: bool, panicked: bool)
    ensures ok ==> !panicked
    ensures ok <==> forall i :: 0 <= i < |d| ==> MirrorRowPasses(d, i)
    ensures panicked <==> exists i :: 0 <= i < |d| && MirrorRowPanics(d, i)
    ensures MirrorIndexable(d) ==> !panicked && (ok <==> IsSymmetric(d))
  {
    if MirrorIndexable(d) {
      MirrorScanIndexable(d);
    }
    for i := 0 to |d|
      invariant forall i' :: 0 <= i' < i ==> MirrorRowPasses(d, i')
    {
      if |d[i]| < i {
        assert !MirrorRowPasses(d, i) && MirrorRowPanics(d, i);
        return false, true;
      }
      for j := 0 to i
        invariant forall j' :: 0 <= j' < j ==> i < |d[j']| && d[i][j'] == d[j'][i]
      {
        if |d[j]| <= i {
          assert !MirrorRowPasses(d, i) && MirrorRowPanics(d, i);
          return false, true;
        }
        if d[i][j] != d[j][i] {
          assert !MirrorRowPasses(d, i);
          forall i'' | 0 <= i'' < |d|
            ensures !MirrorRowPanics(d, i'')
          {
            if i'' < i {
              assert MirrorRowPasses(d, i'');
            } else if i'' == i {
              assert !exists j'' :: 0 <= j'' < i && |d[j'']| <= i && forall j' :: 0 <= j' < j'' ==> i < |d[j']| && d[i][j'] == d[j'][i] by {
                forall j'' | 0 <= j'' < i && |d[j'']| <= i
                  ensures !forall j' :: 0 <= j' < j'' ==> i < |d[j']| && d[i][j'] == d[j'][i]
                {
                  assert j < j'';
                }
              }
            }
          }
          return false, false;
        }
      }
    }
    forall i'' | 0 <= i'' < |d|
      ensures !MirrorRowPanics(d, i'')
    {
      assert MirrorRowPasses(d, i'');
    }
    return true, false;
  }

  /** Row i of the diagonal scan passes: di[i] exists and is zero. */
  ghost predicate DiagonalZeroAt(d: Matrix, i: int)
    requires 0 <= i < |d|
  {
    i < |d[i]| && d[i][i] == 0.0
  }

  method ZeroDiagonal(d: Matrix) returns (ok: bool, panicked: bool)
    ensures ok ==> !panicked
    ensures ok <==> forall i :: 0 <= i < |d| ==> DiagonalZeroAt(d, i)
    ensures panicked <==>
      exists i :: 0 <= i < |d| && |d[i]| <= i && forall i' :: 0 <= i' < i ==> DiagonalZeroAt(d, i')
    ensures HasDiagonal(d) ==> !panicked && (ok <==> HasZeroDiagonal(d))
  {
    for i := 0 to |d|
      invariant forall i' :: 0 <= i' < i ==> DiagonalZeroAt(d, i')
    {
      if |d[i]| <= i {
        assert !DiagonalZeroAt(d, i);
        return false, true;
      }
      if d[i][i] != 0.0 {
        assert !DiagonalZeroAt(d, i);
        forall i'' | 0 <= i'' < |d| && |d[i'']| <= i''
          ensures exists i' :: 0 <= i' < i'' && !DiagonalZeroAt(d, i')
        {
          assert !DiagonalZeroAt(d, i'') && i < i'';
        }
        return false, false;
      }
    }
    forall i'' | 0 <= i'' < |d|
      ensures i'' < |d[i'']| && d[i''][i''] == 0.0
    {
      assert DiagonalZeroAt(d, i'');
    }
    return true, false;
  }

  /** Step (i, j, k) of the triangle scan: row i, an earlier row k, and either j == -1,
      the read of d[i][k], or a column j of row i. */
  ghost predicate TriangleStep(d: Matrix, i: int, j: int, k: int)
  {
    0 <= k < i < |d| && -1 <= j < |d[i]|
  }

  /** The step's reads are in range and, at a column, d[i][j] + d[k][j] < d[i][k] fails. */
  ghost predicate TriangleStepPasses(d: Matrix, i: int, j: int, k: int)
    requires TriangleStep(d, i, j, k)
  {
    k < |d[i]| && (0 <= j ==> j < |d[k]| && !(d[i][j] + d[k][j] < d[i][k]))
  }

  /** The step reads out of range: d[i][k] when j == -1, d[k][j] otherwise. */
  ghost predicate TriangleStepPanics(d: Matrix, i: int, j: int, k: int)
    requires TriangleStep(d, i, j, k)
  {
    if j == -1 then |d[i]| <= k else |d[k]| <= j
  }

  /** Every step before (i, j, k) passes, so the scan reaches it. */
  ghost predicate TriangleReaches(d: Matrix, i: int, j: int, k: int)
  {
    forall i', j', k' :: TriangleStep(d, i', j', k') && TriangleBefore(i', j', k', i, j, k) ==>
      TriangleStepPasses(d, i', j', k')
  }

  /** A step that the scan reaches and that neither passes nor panics leaves no panic
      anywhere in the scan. */
  lemma TriangleNoPanic(d: Matrix, i: int, j: int, k: int)
    requires TriangleStep(d, i, j, k) && TriangleReaches(d, i, j, k)
    requires !TriangleStepPasses(d, i, j, k) && !TriangleStepPanics(d, i, j, k)
    ensures forall i', j', k' :: TriangleStep(d, i', j', k') && TriangleReaches(d, i', j', k') ==>
      !TriangleStepPanics(d, i', j', k')
  {
    forall i', j', k' | TriangleStep(d, i', j', k') && TriangleReaches(d, i', j', k')
      ensures !TriangleStepPanics(d, i', j', k')
    {
      if TriangleBefore(i', j', k', i, j, k) {
        assert TriangleStepPasses(d, i', j', k');
      }
    }
  }

  /** On a matrix with long enough rows no step panics, the steps all pass exactly when
      the triangle inequality holds, and a violation the scan reaches is the first one. */
  lemma TriangleScanIndexable(d: Matrix)
    requires TriangleIndexable(d)
    ensures forall i, j, k :: TriangleStep(d, i, j, k) ==> !TriangleStepPanics(d, i, j, k)
    ensures (forall i, j, k :: TriangleStep(d, i, j, k) ==> TriangleStepPasses(d, i, j, k)) <==>
      SatisfiesTriangle(d)
    ensures forall i, j, k :: TriangleReaches(d, i, j, k) && TriangleViolation(d, i, j, k) ==>
      FirstTriangleViolation(d, i, j, k)
  {
    forall i, j, k | TriangleStep(d, i, j, k)
      ensures !TriangleStepPanics(d, i, j, k)
    {
      assert 0 <= k < i < |d|;
      assert k < |d[i]| <= |d[k]|;
    }
    if SatisfiesTriangle(d) {
      forall i, j, k | TriangleStep(d, i, j, k)
        ensures TriangleStepPasses(d, i, j, k)
      {
        assert k < |d[i]| <= |d[k]|;
        assert !TriangleViolation(d, i, j, k);
      }
    } else {
      var i, j, k :| TriangleViolation(d, i, j, k);
      assert TriangleStep(d, i, j, k) && !TriangleStepPasses(d, i, j, k);
    }
    forall i, j, k | TriangleReaches(d, i, j, k) && TriangleViolation(d, i, j, k)
      ensures FirstTriangleViolation(d, i, j, k)
    {
      forall i', j', k' | TriangleBefore(i', j', k', i, j, k) && TriangleStep(d, i', j', k')
        ensures TriangleStepPasses(d, i', j', k')
      {
      }
    }
  }

  /** Reports the first triple, in the order i, then k < i, then j, with
      d[i][j] + d[k][j] < d[i][k]; (true, 0, 0, 0) when there is none. */
  method TriangleInequality(d: Matrix) returns (ok: bool, panicked: bool, i: int, j: int, k: int)
    ensures ok <==> forall i', j', k' :: TriangleStep(d, i', j', k') ==> TriangleStepPasses(d, i', j', k')
    ensures ok ==> !panicked && i == 0 && j == 0 && k == 0
    ensures panicked <==> exists i', j', k' ::
      TriangleStep(d, i', j', k') && TriangleReaches(d, i', j', k') && TriangleStepPanics(d, i', j', k')
    ensures !ok && !panicked ==>
      TriangleStep(d, i, j, k) && TriangleReaches(d, i, j, k) && TriangleViolation(d, i, j, k)
    ensures TriangleIndexable(d) ==>
      !panicked && (ok <==> SatisfiesTriangle(d)) && (!ok ==> FirstTriangleViolation(d, i, j, k))
  {
    if TriangleIndexable(d) {
      TriangleScanIndexable(d);
    }
    for a := 0 to |d|
      invariant forall i', j', k' :: TriangleStep(d, i', j', k') && i' < a ==> TriangleStepPasses(d, i', j', k')
    {
      for c := 0 to a
        invariant forall i', j', k' :: TriangleStep(d, i', j', k') && (i' < a || (i' == a && k' < c)) ==>
          TriangleStepPasses(d, i', j', k')
      {
        assert TriangleReaches(d, a, -1, c);
        if |d[a]| <= c {
          assert TriangleStepPanics(d, a, -1, c) && !TriangleStepPasses(d, a, -1, c);
          return false, true, a, -1, c;
        }
        for b := 0 to |d[a]|
          invariant TriangleReaches(d, a, b, c)
        {
          if |d[c]| <= b {
            assert TriangleStepPanics(d, a, b, c) && !TriangleStepPasses(d, a, b, c);
            return false, true, a, b, c;
          }
          if d[a][b] + d[c][b] < d[a][c] {
            assert TriangleViolation(d, a, b, c);
            TriangleNoPanic(d, a, b, c);
            return false, false, a, b, c;
          }
        }
      }
    }
    return true, false, 0, 0, 0;
  }

  /** The checks Validate makes, in the order it makes them, each one's failure
      reported only when the earlier ones pass. */
  datatype Invalid =
    | NotSquare
    | NegativeElement
    | NotSymmetric
    | NonZeroDiagonal
    | TriangleNotSatisfied(i: int, j: int, k: int)

  method Validate(d: Matrix) returns (err: Option<Invalid>)
    ensures err == None <==>
      IsSquare(d) && IsNonNegative(d) && IsSymmetric(d) && HasZeroDiagonal(d) && SatisfiesTriangle(d)
    ensures err == Some(NotSquare) <==> !IsSquare(d)
    ensures err == Some(NegativeElement) <==> IsSquare(d) && !IsNonNegative(d)
    ensures err == Some(NotSymmetric) <==> IsSquare(d) && IsNonNegative(d) && !IsSymmetric(d)
    ensures err == Some(NonZeroDiagonal) <==>
      IsSquare(d) && IsNonNegative(d) && IsSymmetric(d) && !HasZeroDiagonal(d)
    ensures err.Some? && err.value.TriangleNotSatisfied? ==>
      IsSquare(d) && IsNonNegative(d) && IsSymmetric(d) && HasZeroDiagonal(d) &&
      FirstTriangleViolation(d, err.value.i, err.value.j, err.value.k)
  {
    var ok := Square(d);
    if !ok {
      return Some(NotSquare);
    }
    ok := NonNegative(d);
    if !ok {
      return Some(NegativeElement);
    }
    // the rows of a square matrix are long enough for every scan below
    assert MirrorIndexable(d) && HasDiagonal(d) && TriangleIndexable(d);
    var panicked;
    ok, panicked := Symmetric(d);
    if !ok {
      return Some(NotSymmetric);
    }
    ok, panicked := ZeroDiagonal(d);
    if !ok {
      return Some(NonZeroDiagonal);
    }
    var i, j, k;
    ok, panicked, i, j, k := TriangleInequality(d);
    if !ok {
      return Some(TriangleNotSatisfied(i, j, k));
    }
    return None;
  }

  /** On a symmetric, non-negative matrix with zero diagonal, testing only the pairs
      k < i leaves out nothing: the inequality then holds for every ordered triple. */
  lemma {:induction false} TriangleEveryTriple(d: Matrix, i: int, j: int, k: int)
    requires IsSquare(d) && IsSymmetric(d) && IsNonNegative(d) && HasZeroDiagonal(d)
    requires SatisfiesTriangle(d)
    requires 0 <= i < |d| && 0 <= j < |d| && 0 <= k < |d|
    ensures d[i][k] <= d[i][j] + d[j][k]
  {
    if k < i {
      assert !TriangleViolation(d, i, j, k);
      if j != k {
        assert d[k][j] == d[j][k];
      }
    } else if i < k {
      assert !TriangleViolation(d, k, j, i);
      assert d[k][i] == d[i][k];
      if i != j {
        assert d[i][j] == d[j][i];
      }
    } else {
      assert d[i][i] == 0.0;
      assert d[i][j] >= 0.0 && d[j][k] >= 0.0;
    }
  }

  // ---------------------------------------------------------------- the four-point test

  /** The three pairwise sums of quadruple (i, j, k, l), in the order the test forms them. */
  function Sums(d: Matrix, i: int, j: int, k: int, l: int): (real, real, real)
    requires IsSquare(d)
    requires 0 <= i < |d| && 0 <= j < |d| && 0 <= k < |d| && 0 <= l < |d|
  {
    (d[i][j] + d[k][l], d[i][k] + d[j][l], d[i][l] + d[j][k])
  }

  /** The four-point condition on three sums: the two largest are equal. */
  ghost predicate FourPoint(s: (real, real, real))
  {
    (s.0 == s.1 && s.2 <= s.0) || (s.0 == s.2 && s.1 <= s.0) || (s.1 == s.2 && s.0 <= s.1)
  }

  /** The test as the source makes it: when two sums are equal the third is swapped into
      first place, and the quadruple fails when the first then exceeds the second. */
  ghost predicate Fails(s: (real, real, real))
  {
    if s.0 == s.1 then s.2 > s.1
    else if s.0 == s.2 then s.1 > s.0
    else s.0 > s.1
  }

  /** A quadruple the test visits (k < j < i, any l) that fails. */
  ghost predicate AdditiveFailure(d: Matrix, i: int, j: int, k: int, l: int)
    requires IsSquare(d)
  {
    0 <= k < j < i < |d| && 0 <= l < |d| && Fails(Sums(d, i, j, k, l))
  }

  /** The scan visits i, then j, then k, then l. */
  ghost predicate QuadBefore(i': int, j': int, k': int, l': int, i: int, j: int, k: int, l: int)
  {
    i' < i || (i' == i && (j' < j || (j' == j && (k' < k || (k' == k && l' < l)))))
  }

  ghost predicate FirstAdditiveFailure(d: Matrix, i: int, j: int, k: int, l: int)
    requires IsSquare(d)
  {
    AdditiveFailure(d, i, j, k, l) &&
    forall i', j', k', l' :: QuadBefore(i', j', k', l', i, j, k, l) ==> !AdditiveFailure(d, i', j', k', l')
  }

  /** A failing quadruple really breaks the four-point condition, so a matrix all of
      whose quadruples meet it passes. */
  lemma FailsBreaksFourPoint(s: (real, real, real))
    ensures Fails(s) ==> !FourPoint(s)
  {
  }

  /** The four-point test: (true, 0, 0, 0, 0), or the first failing quadruple. */
  method Additive(d: Matrix) returns (ok: bool, i: int, j: int, k: int, l: int)
    requires IsSquare(d)
    ensures ok <==> forall i', j', k', l' :: !AdditiveFailure(d, i', j', k', l')
    ensures ok ==> i == 0 && j == 0 && k == 0 && l == 0
    ensures !ok ==> FirstAdditiveFailure(d, i, j, k, l) && !FourPoint(Sums(d, i, j, k, l))
  {
    var n := |d|;
    for a := 0 to n
      invariant forall i', j', k', l' :: i' < a ==> !AdditiveFailure(d, i', j', k', l')
    {
      for b := 0 to a
        invariant forall i', j', k', l' :: i' < a || (i' == a && j' < b) ==> !AdditiveFailure(d, i', j', k', l')
      {
        for c := 0 to b
          invariant forall i', j', k', l' :: QuadBefore(i', j', k', l', a, b, c, 0) ==>
            !AdditiveFailure(d, i', j', k', l')
        {
          for e := 0 to n
            invariant forall i', j', k', l' :: QuadBefore(i', j', k', l', a, b, c, e) ==>
              !AdditiveFailure(d, i', j', k', l')
          {
            var s1, s2, s3 := d[a][b] + d[c][e], d[a][c] + d[b][e], d[a][e] + d[b][c];
            if s1 == s2 {
              s1, s3 := s3, s1;
            } else if s1 == s3 {
              s1, s2 := s2, s1;
            }
            if s1 > s2 {
              assert AdditiveFailure(d, a, b, c, e);
              FailsBreaksFourPoint(Sums(d, a, b, c, e));
              return false, a, b, c, e;
            }
          }
        }
      }
    }
    return true, 0, 0, 0, 0;
  }

  /** The test is complete on a symmetric matrix: when no visited quadruple fails, every
      four distinct points meet the four-point condition. The four visits
      (p3, p2, p1, p0), (p3, p2, p0, p1), (p3, p1, p0, p2) and (p2, p1, p0, p3) of points
      p0 < p1 < p2 < p3 put each of the three pairings first against another, and whichever
      pairing is strictly largest is caught. */
  lemma {:induction false} AdditiveComplete(d: Matrix, p0: int, p1: int, p2: int, p3: int)
    requires IsSquare(d) && IsSymmetric(d)
    requires forall i, j, k, l :: !AdditiveFailure(d, i, j, k, l)
    requires 0 <= p0 < p1 < p2 < p3 < |d|
    ensures FourPoint(Sums(d, p3, p2, p1, p0))
  {
    assert !AdditiveFailure(d, p3, p2, p1, p0);
    assert !AdditiveFailure(d, p3, p2, p0, p1);
    assert !AdditiveFailure(d, p3, p1, p0, p2);
    assert !AdditiveFailure(d, p2, p1, p0, p3);
    // the three pairings {p3 p2 | p1 p0}, {p3 p1 | p2 p0}, {p3 p0 | p2 p1}
    assert d[p0][p1] == d[p1][p0] && d[p0][p2] == d[p2][p0] && d[p0][p3] == d[p3][p0];
    assert d[p1][p2] == d[p2][p1] && d[p1][p3] == d[p3][p1] && d[p2][p3] == d[p3][p2];
  }
}
