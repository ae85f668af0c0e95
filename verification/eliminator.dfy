/** `gauss_jordan_verbose`: Gauss-Jordan elimination with partial pivoting on
    an n x (n+1) augmented matrix, in place, logging every step. The run is
    specified by functions on matrix values (`GaussJordan` and the steps it is
    made of); the methods perform it on the array and the log. */
module Eliminator {
  import opened Reals
  import opened Matrices
  import opened RowOps
  import opened StepLog

  const Eps: real := 1e-10
  const MaxRows: nat := 3

  /** An n x (n+1) augmented matrix `[A | b]`. */
  predicate Augmented(m: seq<seq<real>>)
  {
    Rect(m, |m| + 1)
  }

  datatype Status = Running | Solved | SingularAt(col: nat) | Aborted

  /** The state of a run: the matrix, the lines logged so far, the next
      iteration number and whether the run has ended. */
  datatype Run = Run(m: seq<seq<real>>, events: seq<Event>, iter: nat, status: Status)

  /** A numbered step: its line, then the matrix after it. */
  function Step(s: Run, e: Event, m': seq<seq<real>>): Run
  {
    Run(m', s.events + ([e] + MatrixLines(m')), s.iter + 1, s.status)
  }

  // ---------------------------------------------------------------------------
  // Pivot search

  /** The scan over rows `r..n-1`, keeping the current `pivot` unless a row is
      strictly larger in absolute value. */
  function PivotScan(m: seq<seq<real>>, col: nat, r: nat, pivot: nat): (p: nat)
    requires Augmented(m) && col <= pivot < r <= |m|
    requires forall k :: col <= k < r ==> Abs(m[k][col]) <= Abs(m[pivot][col])
    requires forall k :: col <= k < pivot ==> Abs(m[k][col]) < Abs(m[pivot][col])
    ensures col <= p < |m|
    ensures forall k :: col <= k < |m| ==> Abs(m[k][col]) <= Abs(m[p][col])
    ensures forall k :: col <= k < p ==> Abs(m[k][col]) < Abs(m[p][col])
    decreases |m| - r
  {
    if r == |m| then pivot
    else if Abs(m[r][col]) > Abs(m[pivot][col]) then PivotScan(m, col, r + 1, r)
    else PivotScan(m, col, r + 1, pivot)
  }

  /** The pivot row for column `col`: the first row from `col` on whose entry
      in that column is largest in absolute value. */
  function PivotOf(m: seq<seq<real>>, col: nat): (p: nat)
    requires Augmented(m) && col < |m|
    ensures col <= p < |m|
    ensures forall k :: col <= k < |m| ==> Abs(m[k][col]) <= Abs(m[p][col])
    ensures forall k :: col <= k < p ==> Abs(m[k][col]) < Abs(m[p][col])
    ensures (forall k :: col <= k < |m| ==> Abs(m[k][col]) <= Abs(m[col][col])) ==> p == col
  {
    PivotScan(m, col, col + 1, col)
  }

  // ---------------------------------------------------------------------------
  // The run

  /** One pass of the elimination loop: row `r` loses `factor` times the
      pivot row `col`, where `factor` is its entry in column `col`; the pivot
      row itself and a row whose entry is negligible are skipped without a
      log line. */
  function EliminateRow(s: Run, col: nat, r: nat): (t: Run)
    requires Augmented(s.m) && col < |s.m| && r < |s.m|
    ensures Augmented(t.m) && |t.m| == |s.m| && t.status == s.status
  {
    if r == col || Abs(s.m[r][col]) < Eps then s
    else
      var factor := s.m[r][col];
      Step(s, Elim(s.iter, r + 1, factor, col + 1), Subtracted(s.m, r, col, col, factor))
  }

  /** Elimination of column `col` from every other row, from row `r` on. */
  function EliminateFrom(s: Run, col: nat, r: nat): (t: Run)
    requires Augmented(s.m) && col < |s.m| && r <= |s.m|
    ensures Augmented(t.m) && |t.m| == |s.m| && t.status == s.status
    decreases |s.m| - r
  {
    if r == |s.m| then s
    else EliminateFrom(EliminateRow(s, col, r), col, r + 1)
  }

  /** The swap of the pivot row into place, logged only when the rows differ. */
  function SwapStep(s: Run, col: nat, pivot: nat): (t: Run)
    requires Augmented(s.m) && col <= pivot < |s.m|
    ensures Augmented(t.m) && |t.m| == |s.m| && t.m[col] == s.m[pivot]
    ensures t.status == s.status
  {
    if pivot != col then Step(s, Swap(s.iter, col + 1, pivot + 1), Swapped(s.m, col, pivot)) else s
  }

  /** The scaling of the pivot row by the reciprocal of its pivot. */
  function ScaleStep(s: Run, col: nat): (t: Run)
    requires Augmented(s.m) && col < |s.m| && s.m[col][col] != 0.0
    ensures Augmented(t.m) && |t.m| == |s.m| && t.status == s.status
  {
    var inv := 1.0 / s.m[col][col];
    Step(s, Scale(s.iter, col + 1, inv), Scaled(s.m, col, col, inv))
  }

  /** The abort on a vanished pivot: its numbered line, no matrix, and the
      run ends. */
  function Abort(s: Run): Run
  {
    Run(s.m, s.events + [Vanished(s.iter)], s.iter + 1, Aborted)
  }

  /** One pass of the column loop: pivot search, the singular exit, the swap,
      the scaling (with its abort on a vanished pivot) and the elimination. */
  function ColumnStep(s: Run, col: nat): (t: Run)
    requires Augmented(s.m) && col < |s.m|
    ensures Augmented(t.m) && |t.m| == |s.m|
  {
    var pivot := PivotOf(s.m, col);
    if Abs(s.m[pivot][col]) < Eps then SingularStop(s, col)
    else
      var s1 := SwapStep(s, col, pivot);
      if Abs(s1.m[col][col]) < Eps then
        Abort(s1)
      else
        EliminateFrom(ScaleStep(s1, col), col, 0)
  }

  /** The singular exit: its numbered line, the unchanged matrix, and the
      run ends. */
  function SingularStop(s: Run, col: nat): Run
  {
    Step(s, Singular(s.iter, col + 1), s.m).(status := SingularAt(col))
  }

  /** The end of a run that reduced every column: the closing lines. */
  function Finish(s: Run): Run
    requires Augmented(s.m)
  {
    Run(s.m, s.events + Epilogue(s.m), s.iter, Solved)
  }

  /** The closing lines: "Finished", the matrix, "Solution x:" and one line
      per unknown, read from the last column. */
  function Epilogue(m: seq<seq<real>>): (t: seq<Event>)
    requires Augmented(m)
    ensures |t| == 2 * |m| + 4
  {
    [Finished] + MatrixLines(m) + [SolutionHeader] + SolutionLines(m)
  }

  function SolutionLines(m: seq<seq<real>>): (t: seq<Event>)
    requires Augmented(m)
    ensures |t| == |m| && forall i :: 0 <= i < |m| ==> t[i] == Solution(i, m[i][|m|])
  {
    seq(|m|, i requires 0 <= i < |m| => Solution(i, m[i][|m|]))
  }

  /** The column loop from column `col` on. */
  function Columns(s: Run, col: nat): (t: Run)
    requires Augmented(s.m) && col <= |s.m|
    ensures Augmented(t.m) && |t.m| == |s.m|
    decreases |s.m| - col
  {
    if col == |s.m| then Finish(s)
    else
      var t := ColumnStep(s, col);
      if t.status == Running then Columns(t, col + 1) else t
  }

  /** The whole of `gauss_jordan_verbose` on the matrix `m`. */
  function GaussJordan(m: seq<seq<real>>): (t: Run)
    requires Augmented(m)
    ensures Augmented(t.m) && |t.m| == |m|
  {
    Columns(Run(m, [Initial] + MatrixLines(m), 1, Running), 0)
  }

  // ---------------------------------------------------------------------------
  // Properties of the run

  /** No closing line has been logged in `t`. */
  predicate Quiet(t: seq<Event>)
  {
    t == [] || (!t[0].IsResult() && Quiet(t[1..]))
  }

  lemma {:induction false} QuietConcat(t: seq<Event>, u: seq<Event>)
    requires Quiet(t) && Quiet(u)
    ensures Quiet(t + u)
    decreases |t|
  {
    if t == [] {
      assert t + u == u;
    } else {
      assert (t + u)[0] == t[0] && (t + u)[1..] == t[1..] + u;
      QuietConcat(t[1..], u);
    }
  }

  lemma {:induction false} QuietAll(t: seq<Event>)
    requires forall k :: 0 <= k < |t| ==> !t[k].IsResult()
    ensures Quiet(t)
    decreases |t|
  {
    if t != [] {
      QuietAll(t[1..]);
    }
  }

  /** The invariant of a running run: its numbered lines count up from 1, the
      next number is one past the last, and nothing closing has been logged. */
  ghost predicate Sound(s: Run)
  {
    NumberedFrom(s.events, 1) && s.iter == 1 + StepCount(s.events) && Quiet(s.events)
  }

  /** Columns `0..c-1` of `m` are reduced: a 1 on the diagonal and a negligible
      entry in every other row. */
  ghost predicate ReducedUpTo(m: seq<seq<real>>, c: nat)
    requires Augmented(m) && c <= |m|
  {
    && (forall k :: 0 <= k < c ==> m[k][k] == 1.0)
    && (forall k, r :: 0 <= k < c && 0 <= r < |m| && r != k ==> Abs(m[r][k]) < Eps)
  }

  /** `t` ends with `u`. */
  predicate EndsWith(t: seq<Event>, u: seq<Event>)
  {
    |u| <= |t| && t[|t| - |u|..] == u
  }

  /** A numbered step followed by its matrix continues the numbering. */
  lemma StepNumbered(t: seq<Event>, e: Event, m': seq<seq<real>>)
    requires NumberedFrom(t, 1) && e.IsStep() && e.iter == 1 + StepCount(t)
    ensures NumberedFrom(t + ([e] + MatrixLines(m')), 1)
    ensures StepCount(t + ([e] + MatrixLines(m'))) == StepCount(t) + 1
  {
    StepThenMatrix(e, m');
    NumberedConcat(t, [e] + MatrixLines(m'), 1);
    StepCountConcat(t, [e] + MatrixLines(m'));
  }

  /** A logged step keeps the run sound. */
  lemma StepSound(s: Run, e: Event, m': seq<seq<real>>)
    requires Sound(s) && e.IsStep() && e.iter == s.iter
    ensures var t := Step(s, e, m');
      && Sound(t) && |t.events| == |s.events| + |m'| + 3
  {
    var u := [e] + MatrixLines(m');
    StepNumbered(s.events, e, m');
    QuietAll(u);
    QuietConcat(s.events, u);
  }

  /** The initial listing is a sound start. */
  lemma StartSound(m: seq<seq<real>>)
    requires Augmented(m)
    ensures Sound(Run(m, [Initial] + MatrixLines(m), 1, Running))
  {
    var t := [Initial] + MatrixLines(m);
    forall k | 0 <= k < |t|
      ensures !t[k].IsStep() && !t[k].IsResult()
    {
      if k > 0 {
        assert t[k] == MatrixLines(m)[k - 1];
      }
    }
    StepCountNone(t, 1);
    QuietAll(t);
  }

  lemma SwapKeepsReduced(m: seq<seq<real>>, col: nat, pivot: nat)
    requires Augmented(m) && col <= pivot < |m| && ReducedUpTo(m, col)
    ensures Augmented(Swapped(m, col, pivot)) && ReducedUpTo(Swapped(m, col, pivot), col)
  {
  }

  lemma ScaleKeepsReduced(m: seq<seq<real>>, col: nat, inv: real)
    requires Augmented(m) && col < |m| && ReducedUpTo(m, col)
    ensures Augmented(Scaled(m, col, col, inv)) && ReducedUpTo(Scaled(m, col, col, inv), col)
  {
  }

  lemma SubtractKeepsReduced(m: seq<seq<real>>, r: nat, col: nat, factor: real)
    requires Augmented(m) && col < |m| && r < |m| && r != col && ReducedUpTo(m, col)
    ensures Augmented(Subtracted(m, r, col, col, factor))
    ensures ReducedUpTo(Subtracted(m, r, col, col, factor), col)
  {
  }

  /** One pass of the elimination loop keeps a sound run sound, keeps the
      earlier columns reduced and the pivot 1, and leaves row `r` negligible
      in column `col`. The pivot row and a row with a negligible factor are
      skipped: nothing changes and nothing is logged. Any other row gets
      exactly 0 in column `col` and one numbered step of n + 3 lines. */
  lemma EliminateRowFacts(s: Run, col: nat, r: nat)
    requires Augmented(s.m) && col < |s.m| && r < |s.m| && Sound(s)
    requires ReducedUpTo(s.m, col) && s.m[col][col] == 1.0
    ensures var t := EliminateRow(s, col, r);
      && Sound(t) && ReducedUpTo(t.m, col) && t.m[col][col] == 1.0
      && (r != col ==> Abs(t.m[r][col]) < Eps)
      && (forall k :: 0 <= k < |s.m| && k != r ==> t.m[k] == s.m[k])
      && |t.events| <= |s.events| + |s.m| + 3
      && (r == col || Abs(s.m[r][col]) < Eps ==> t == s)
      && (r != col && Abs(s.m[r][col]) >= Eps ==>
            && t.m[r][col] == 0.0
            && StepCount(t.events) == StepCount(s.events) + 1
            && |t.events| == |s.events| + |s.m| + 3)
  {
    if r != col && Abs(s.m[r][col]) >= Eps {
      var factor := s.m[r][col];
      StepSound(s, Elim(s.iter, r + 1, factor, col + 1), Subtracted(s.m, r, col, col, factor));
      SubtractKeepsReduced(s.m, r, col, factor);
      SubtractedToZero(s.m, r, col, col);
    }
  }

  /** The elimination of column `col`, once the pivot row holds 1 there,
      leaves the column negligible in every other row, keeps the columns
      before it reduced and logs at most one step of n + 3 lines per row. */
  lemma {:induction false} EliminateFromFacts(s: Run, col: nat, r: nat)
    requires Augmented(s.m) && col < |s.m| && r <= |s.m| && Sound(s)
    requires ReducedUpTo(s.m, col) && s.m[col][col] == 1.0
    requires forall k :: 0 <= k < r && k != col ==> Abs(s.m[k][col]) < Eps
    ensures var t := EliminateFrom(s, col, r);
      && Sound(t) && ReducedUpTo(t.m, col + 1)
      && (|s.m| <= MaxRows ==> |t.events| <= |s.events| + 6 * (|s.m| - r))
    decreases |s.m| - r
  {
    if r < |s.m| {
      var s' := EliminateRow(s, col, r);
      EliminateRowFacts(s, col, r);
      assert EliminateFrom(s, col, r) == EliminateFrom(s', col, r + 1);
      EliminateFromFacts(s', col, r + 1);
    }
  }

  /** What one pass of the column loop does to a sound, running run whose
      earlier columns are reduced: it never aborts; it either reduces column
      `col` too, or takes the singular exit on a column that is negligible
      from row `col` down. */
  lemma ColumnStepFacts(s: Run, col: nat)
    requires Augmented(s.m) && col < |s.m| && s.status == Running
    requires Sound(s) && ReducedUpTo(s.m, col)
    ensures var t := ColumnStep(s, col);
      && (t.status == Running || t == SingularStop(s, col))
      && (t.status == Running ==> Sound(t) && ReducedUpTo(t.m, col + 1))
      && (t.status == Running && |s.m| <= MaxRows ==> |t.events| <= |s.events| + 30)
      && (t == SingularStop(s, col) ==> forall r :: col <= r < |s.m| ==> Abs(s.m[r][col]) < Eps)
  {
    var pivot := PivotOf(s.m, col);
    if Abs(s.m[pivot][col]) >= Eps {
      var s1 := SwapStep(s, col, pivot);
      if pivot != col {
        StepSound(s, Swap(s.iter, col + 1, pivot + 1), Swapped(s.m, col, pivot));
        SwapKeepsReduced(s.m, col, pivot);
      }
      assert Sound(s1) && ReducedUpTo(s1.m, col);
      assert |s.m| <= MaxRows ==> |s1.events| <= |s.events| + 6;
      var p := s1.m[col][col];
      assert Abs(p) >= Eps;
      var inv := 1.0 / p;
      var s2 := ScaleStep(s1, col);
      StepSound(s1, Scale(s1.iter, col + 1, inv), Scaled(s1.m, col, col, inv));
      ScaleKeepsReduced(s1.m, col, inv);
      ScaledToOne(s1.m, col, col);
      EliminateFromFacts(s2, col, 0);
    }
  }

  /** The column loop from column `col` on, started on a sound running run
      whose columns before `col` are reduced. It ends solved or singular;
      `u` is the sound state it ends from: every column reduced before the
      closing lines, or the columns before `c` reduced and column `c`
      negligible from row `c` down before the singular exit. */
  lemma {:induction false} ColumnsFacts(s: Run, col: nat) returns (u: Run)
    requires Augmented(s.m) && col <= |s.m| && s.status == Running
    requires Sound(s) && ReducedUpTo(s.m, col)
    ensures Augmented(u.m) && |u.m| == |s.m| && Sound(u)
    ensures var t := Columns(s, col);
      && (t.status == Solved || (t.status.SingularAt? && col <= t.status.col < |s.m|))
      && (t.status == Solved ==> t == Finish(u) && ReducedUpTo(u.m, |u.m|))
      && (t.status.SingularAt? ==>
            && t == SingularStop(u, t.status.col)
            && ReducedUpTo(u.m, t.status.col)
            && forall r :: t.status.col <= r < |u.m| ==> Abs(u.m[r][t.status.col]) < Eps)
      && (|s.m| <= MaxRows ==> |t.events| <= |s.events| + 30 * (|s.m| - col) + 10)
    decreases |s.m| - col
  {
    if col == |s.m| {
      u := s;
    } else {
      ColumnStepFacts(s, col);
      var t := ColumnStep(s, col);
      if t.status == Running {
        assert Columns(s, col) == Columns(t, col + 1);
        u := ColumnsFacts(t, col + 1);
      } else {
        u := s;
      }
    }
  }

  /** The closing lines carry no number. */
  lemma EpilogueUnnumbered(m: seq<seq<real>>)
    requires Augmented(m)
    ensures forall k :: 0 <= k < |Epilogue(m)| ==> !Epilogue(m)[k].IsStep()
  {
    var e := Epilogue(m);
    forall k | 0 <= k < |e|
      ensures !e[k].IsStep()
    {
      if 1 <= k < |m| + 3 {
        assert e[k] == MatrixLines(m)[k - 1];
      } else if k >= |m| + 4 {
        assert e[k] == SolutionLines(m)[k - |m| - 4];
      }
    }
  }

  /** The run only ever appends to its log. */
  lemma {:induction false} EliminateFromExtends(s: Run, col: nat, r: nat) returns (w: seq<Event>)
    requires Augmented(s.m) && col < |s.m| && r <= |s.m|
    ensures EliminateFrom(s, col, r).events == s.events + w
    decreases |s.m| - r
  {
    if r == |s.m| {
      w := [];
      assert s.events + w == s.events;
    } else {
      var s' := EliminateRow(s, col, r);
      var w' := EliminateFromExtends(s', col, r + 1);
      if r == col || Abs(s.m[r][col]) < Eps {
        w := w';
      } else {
        var u := [Elim(s.iter, r + 1, s.m[r][col], col + 1)] + MatrixLines(s'.m);
        w := u + w';
        AppendAssoc(s.events, u, w');
      }
    }
  }

  lemma ColumnStepExtends(s: Run, col: nat) returns (w: seq<Event>)
    requires Augmented(s.m) && col < |s.m|
    ensures ColumnStep(s, col).events == s.events + w
  {
    var pivot := PivotOf(s.m, col);
    var s1 := SwapStep(s, col, pivot);
    var w1: seq<Event> := [];
    if pivot != col {
      w1 := [Swap(s.iter, col + 1, pivot + 1)] + MatrixLines(Swapped(s.m, col, pivot));
    } else {
      assert s.events + w1 == s.events;
    }
    assert s1.events == s.events + w1;
    if Abs(s.m[pivot][col]) < Eps {
      w := [Singular(s.iter, col + 1)] + MatrixLines(s.m);
    } else if Abs(s1.m[col][col]) < Eps {
      w := w1 + [Vanished(s1.iter)];
      AppendAssoc(s.events, w1, [Vanished(s1.iter)]);
    } else {
      var inv := 1.0 / s1.m[col][col];
      var s2 := ScaleStep(s1, col);
      var w2 := [Scale(s1.iter, col + 1, inv)] + MatrixLines(Scaled(s1.m, col, col, inv));
      var w3 := EliminateFromExtends(s2, col, 0);
      w := w1 + (w2 + w3);
      AppendAssoc(s1.events, w2, w3);
      AppendAssoc(s.events, w1, w2 + w3);
    }
  }

  lemma {:induction false} ColumnsExtend(s: Run, col: nat) returns (w: seq<Event>)
    requires Augmented(s.m) && col <= |s.m|
    ensures Columns(s, col).events == s.events + w
    decreases |s.m| - col
  {
    if col == |s.m| {
      w := Epilogue(s.m);
    } else {
      var w1 := ColumnStepExtends(s, col);
      var t := ColumnStep(s, col);
      if t.status == Running {
        var w2 := ColumnsExtend(t, col + 1);
        w := w1 + w2;
        AppendAssoc(s.events, w1, w2);
      } else {
        w := w1;
      }
    }
  }

  /** The whole run, from the initial listing: the state `u` it ends from
      is sound, and it ends solved or singular as `ColumnsFacts` says. */
  lemma RunFacts(m: seq<seq<real>>) returns (u: Run)
    requires Augmented(m)
    ensures Augmented(u.m) && |u.m| == |m| && Sound(u)
    ensures var t := GaussJordan(m);
      && (t.status == Solved || (t.status.SingularAt? && t.status.col < |m|))
      && (t.status == Solved ==> t == Finish(u) && ReducedUpTo(u.m, |m|))
      && (t.status.SingularAt? ==>
            && t == SingularStop(u, t.status.col)
            && ReducedUpTo(u.m, t.status.col)
            && forall r :: t.status.col <= r < |m| ==> Abs(u.m[r][t.status.col]) < Eps)
      && (|m| <= MaxRows ==> |t.events| <= 106)
  {
    StartSound(m);
    u := ColumnsFacts(Run(m, [Initial] + MatrixLines(m), 1, Running), 0);
  }

  /** A run on an augmented matrix always ends solved or singular: the abort
      on a vanished pivot after the swap cannot happen, since the pivot moved
      into place is the one found to be at least `Eps` in absolute value. */
  lemma NeverAborts(m: seq<seq<real>>)
    requires Augmented(m)
    ensures GaussJordan(m).status == Solved || GaussJordan(m).status.SingularAt?
  {
    var u := RunFacts(m);
  }

  /** The closing lines keep the numbering of a sound run. */
  lemma FinishNumbered(u: Run)
    requires Augmented(u.m) && Sound(u)
    ensures NumberedFrom(Finish(u).events, 1)
  {
    EpilogueUnnumbered(u.m);
    StepCountNone(Epilogue(u.m), 1 + StepCount(u.events));
    NumberedConcat(u.events, Epilogue(u.m), 1);
  }

  /** A singular run whose log ends with the singular step and the
      unchanged matrix and holds no closing line. */
  ghost predicate SingularLogged(t: Run)
  {
    t.status.SingularAt? ==>
      && t.iter >= 1
      && EndsWith(t.events, [Singular(t.iter - 1, t.status.col + 1)] + MatrixLines(t.m))
      && Quiet(t.events)
  }

  /** The singular exit of a sound run is logged that way. */
  lemma SingularTail(u: Run, t: Run)
    requires Sound(u) && t.status.SingularAt? && t == SingularStop(u, t.status.col)
    ensures SingularLogged(t)
  {
    var e := Singular(u.iter, t.status.col + 1);
    StepSound(u, e, u.m);
    AppendSplit(u.events, [e] + MatrixLines(u.m));
  }

  /** The log of a run starts with the initial matrix. */
  lemma RunStartsWith(m: seq<seq<real>>)
    requires Augmented(m)
    ensures [Initial] + MatrixLines(m) <= GaussJordan(m).events
  {
    var head := [Initial] + MatrixLines(m);
    var w := ColumnsExtend(Run(m, head, 1, Running), 0);
    AppendSplit(head, w);
  }

  /** The numbered lines of a run's log are numbered 1, 2, 3, ... */
  lemma RunNumbered(m: seq<seq<real>>)
    requires Augmented(m)
    ensures NumberedFrom(GaussJordan(m).events, 1)
  {
    var u := RunFacts(m);
    var t := GaussJordan(m);
    if t.status == Solved {
      FinishNumbered(u);
    } else {
      StepSound(u, Singular(u.iter, t.status.col + 1), u.m);
    }
  }

  /** A solved run ends with the left block reduced to the identity (up to
      entries below `Eps` off the diagonal) and logs the closing lines, with
      the solution read from the last column, only at its end. */
  lemma SolvedOutcome(m: seq<seq<real>>)
    requires Augmented(m)
    ensures var t := GaussJordan(m);
      t.status == Solved ==>
        && ReducedUpTo(t.m, |m|)
        && EndsWith(t.events, Epilogue(t.m))
        && Quiet(t.events[..|t.events| - |Epilogue(t.m)|])
  {
    var u := RunFacts(m);
    var t := GaussJordan(m);
    if t.status == Solved {
      AppendSplit(u.events, Epilogue(u.m));
    }
  }

  /** A run that stops at column `c` found every entry of that column from
      row `c` down negligible, after reducing the columns before it. */
  lemma SingularOutcome(m: seq<seq<real>>)
    requires Augmented(m)
    ensures var t := GaussJordan(m);
      t.status.SingularAt? ==>
        && t.status.col < |m|
        && ReducedUpTo(t.m, t.status.col)
        && (forall r :: t.status.col <= r < |m| ==> Abs(t.m[r][t.status.col]) < Eps)
  {
    var u := RunFacts(m);
    var t := GaussJordan(m);
    if t.status.SingularAt? {
      assert t.m == u.m;
    }
  }

  /** The log of a singular run ends with the singular step and the
      unchanged matrix, and holds no closing line. */
  lemma SingularLog(m: seq<seq<real>>)
    requires Augmented(m)
    ensures SingularLogged(GaussJordan(m))
  {
    var u := RunFacts(m);
    var t := GaussJordan(m);
    if t.status.SingularAt? {
      SingularTail(u, t);
    }
  }

  /** For the sizes the program accepts (at most 3 unknowns) a run logs at
      most 106 lines, so the 280-line buffer never drops one. */
  lemma RunFitsLog(m: seq<seq<real>>)
    requires Augmented(m) && |m| <= MaxRows
    ensures |GaussJordan(m).events| <= 106 < MaxLines
  {
    var u := RunFacts(m);
  }

  // ---------------------------------------------------------------------------
  // Two worked runs

  /** Column 1 of the system 2x + y = 5, x - y = 1: the pivot 2 stays in
      place, row 1 is halved and row 2 loses it once. */
  lemma SolvedExampleFirstColumn(s: Run)
    requires s.m == [[2.0, 1.0, 5.0], [1.0, -1.0, 1.0]]
    ensures var t := ColumnStep(s, 0);
      t.m == [[1.0, 0.5, 2.5], [0.0, -1.5, -1.5]] && t.status == s.status && t.iter == s.iter + 2
  {
    assert PivotOf(s.m, 0) == 0;
    ColumnStepCases(s, 0);
    assert SwapStep(s, 0, 0) == s;
    var s1 := ScaleStep(s, 0);
    assert s1.m[0] == [1.0, 0.5, 2.5];
    assert s1.m == [[1.0, 0.5, 2.5], [1.0, -1.0, 1.0]];
    var s2 := EliminateRow(s1, 0, 1);
    assert s2.m[1] == [0.0, -1.5, -1.5];
    assert s2.m == [[1.0, 0.5, 2.5], [0.0, -1.5, -1.5]];
    assert EliminateFrom(s1, 0, 1) == s2;
  }

  /** Column 2 of the same system: row 2 is scaled by 1 / -1.5 and row 1
      loses half of it, which leaves [I | x] with x = (2, 1). */
  lemma SolvedExampleSecondColumn(s: Run)
    requires s.m == [[1.0, 0.5, 2.5], [0.0, -1.5, -1.5]]
    ensures var t := ColumnStep(s, 1);
      t.m == [[1.0, 0.0, 2.0], [0.0, 1.0, 1.0]] && t.status == s.status && t.iter == s.iter + 2
  {
    assert PivotOf(s.m, 1) == 1;
    ColumnStepCases(s, 1);
    assert SwapStep(s, 1, 1) == s;
    var s1 := ScaleStep(s, 1);
    assert s1.m[1] == [0.0, 1.0, 1.0];
    assert s1.m == [[1.0, 0.5, 2.5], [0.0, 1.0, 1.0]];
    var s2 := EliminateRow(s1, 1, 0);
    assert s2.m[0] == [1.0, 0.0, 2.0];
    assert s2.m == [[1.0, 0.0, 2.0], [0.0, 1.0, 1.0]];
    assert EliminateFrom(s1, 1, 0) == EliminateFrom(s2, 1, 1);
    assert EliminateRow(s2, 1, 1) == s2;
    assert EliminateFrom(s2, 1, 1) == EliminateFrom(s2, 1, 2) == s2;
  }

  /** The system 2x + y = 5, x - y = 1 is solved: the run ends with
      [I | x], x = (2, 1), and the log closes with the two solution lines. */
  lemma SolvedExample()
    ensures var t := GaussJordan([[2.0, 1.0, 5.0], [1.0, -1.0, 1.0]]);
      && t.status == Solved && t.m == [[1.0, 0.0, 2.0], [0.0, 1.0, 1.0]]
      && EndsWith(t.events, [Solution(0, 2.0), Solution(1, 1.0)])
  {
    var m := [[2.0, 1.0, 5.0], [1.0, -1.0, 1.0]];
    var s0 := Run(m, [Initial] + MatrixLines(m), 1, Running);
    SolvedExampleFirstColumn(s0);
    ColumnsStep(s0, 0);
    var s1 := ColumnStep(s0, 0);
    SolvedExampleSecondColumn(s1);
    ColumnsStep(s1, 1);
    var s2 := ColumnStep(s1, 1);
    SolvedExampleFinish(s2);
    assert GaussJordan(m) == Finish(s2);
  }

  /** The closing lines of the solved example read x = (2, 1) off the last
      column. */
  lemma SolvedExampleFinish(s: Run)
    requires s.m == [[1.0, 0.0, 2.0], [0.0, 1.0, 1.0]]
    ensures EndsWith(Finish(s).events, [Solution(0, 2.0), Solution(1, 1.0)])
  {
    var t := Finish(s);
    assert SolutionLines(s.m) == [Solution(0, 2.0), Solution(1, 1.0)];
    assert t.events[|t.events| - 2..] == SolutionLines(s.m);
  }

  /** Column 1 of the system x + 2y = 3, 2x + 4y = 7: the larger pivot 2 is
      swapped up, halved, and row 2 loses it once. */
  lemma SingularExampleFirstColumn(s: Run)
    requires s.m == [[1.0, 2.0, 3.0], [2.0, 4.0, 7.0]]
    ensures var t := ColumnStep(s, 0);
      t.m == [[1.0, 2.0, 3.5], [0.0, 0.0, -0.5]] && t.status == s.status && t.iter == s.iter + 3
  {
    assert PivotOf(s.m, 0) == 1;
    ColumnStepCases(s, 0);
    var s1 := SwapStep(s, 0, 1);
    assert s1.m == [[2.0, 4.0, 7.0], [1.0, 2.0, 3.0]];
    var s2 := ScaleStep(s1, 0);
    assert s2.m[0] == [1.0, 2.0, 3.5];
    assert s2.m == [[1.0, 2.0, 3.5], [1.0, 2.0, 3.0]];
    var s3 := EliminateRow(s2, 0, 1);
    assert s3.m[1] == [0.0, 0.0, -0.5];
    assert s3.m == [[1.0, 2.0, 3.5], [0.0, 0.0, -0.5]];
    assert EliminateFrom(s2, 0, 1) == s3;
  }

  /** The system x + 2y = 3, 2x + 4y = 7 has no solution: after column 1
      the pivot of column 2 is 0, the run stops singular at column 2 with
      its fourth numbered line, and no solution is logged. */
  lemma SingularExample()
    ensures var t := GaussJordan([[1.0, 2.0, 3.0], [2.0, 4.0, 7.0]]);
      && t.status == SingularAt(1) && t.m == [[1.0, 2.0, 3.5], [0.0, 0.0, -0.5]]
      && EndsWith(t.events, [Singular(4, 2)] + MatrixLines(t.m))
  {
    var m := [[1.0, 2.0, 3.0], [2.0, 4.0, 7.0]];
    var s0 := Run(m, [Initial] + MatrixLines(m), 1, Running);
    SingularExampleFirstColumn(s0);
    ColumnsStep(s0, 0);
    var s1 := ColumnStep(s0, 0);
    assert PivotOf(s1.m, 1) == 1;
    ColumnStepCases(s1, 1);
    ColumnsStep(s1, 1);
    var t := SingularStop(s1, 1);
    assert GaussJordan(m) == t;
  }

  // ---------------------------------------------------------------------------
  // In place

  /** The pivot search: the first row from `col` on with the largest
      absolute value in column `col`, and that value. */
  method FindPivot(A: array2<real>, col: nat) returns (pivot: nat, best: real)
    requires A.Length1 == A.Length0 + 1 && col < A.Length0
    ensures col <= pivot < A.Length0 && best == Abs(A[pivot, col])
    ensures forall k :: col <= k < A.Length0 ==> Abs(A[k, col]) <= best
    ensures forall k :: col <= k < pivot ==> Abs(A[k, col]) < best
    ensures pivot == PivotOf(Snapshot(A), col)
  {
    ghost var m := Snapshot(A);
    pivot := col;
    best := Abs(A[pivot, col]);
    var r := col + 1;
    while r < A.Length0
      invariant col <= pivot < r <= A.Length0
      invariant best == Abs(A[pivot, col])
      invariant forall k :: col <= k < r ==> Abs(A[k, col]) <= best
      invariant forall k :: col <= k < pivot ==> Abs(A[k, col]) < best
      invariant PivotScan(m, col, r, pivot) == PivotOf(m, col)
    {
      var v := Abs(A[r, col]);
      if v > best {
        best := v;
        pivot := r;
      }
      r := r + 1;
    }
  }

  /** The array `A` and the log hold the run `s`: `A` is its matrix and the
      log holds its lines after the lines `before`. */
  ghost predicate Holds(A: array2<real>, log: Log, before: seq<Event>, s: Run)
    reads A, log, log.lines
  {
    && A.Length1 == A.Length0 + 1 && s.m == Snapshot(A)
    && log.Valid() && log.Written == before + s.events
  }

  /** The swap block: the line, the exchange of the rows, the matrix. */
  method SwapInPlace(A: array2<real>, log: Log, col: nat, pivot: nat, iter: nat, ghost before: seq<Event>, ghost s: Run)
    requires Holds(A, log, before, s) && s.iter == iter && col < pivot < A.Length0
    modifies A, log, log.lines
    ensures Holds(A, log, before, SwapStep(s, col, pivot))
  {
    log.Append(Swap(iter, col + 1, pivot + 1));
    SwapRows(A, col, pivot);
    log.LogMatrix(A);
    AppendStep(before, s.events, Swap(iter, col + 1, pivot + 1), MatrixLines(Swapped(s.m, col, pivot)));
  }

  /** The scaling block: the pivot row times the reciprocal of the pivot,
      the line, the matrix. */
  method ScaleInPlace(A: array2<real>, log: Log, col: nat, iter: nat, ghost before: seq<Event>, ghost s: Run)
    requires Holds(A, log, before, s) && s.iter == iter && col < A.Length0
    requires Abs(A[col, col]) >= Eps
    modifies A, log, log.lines
    ensures Holds(A, log, before, ScaleStep(s, col))
  {
    var p := A[col, col];
    var inv := 1.0 / p;
    ScaleRow(A, col, col, inv);
    log.Append(Scale(iter, col + 1, inv));
    log.LogMatrix(A);
    AppendStep(before, s.events, Scale(iter, col + 1, inv), MatrixLines(Scaled(s.m, col, col, inv)));
  }

  /** The body of the elimination loop for row `r`: unless `r` is the pivot
      row or its entry in column `col` is negligible, `factor` times the
      pivot row is subtracted from it, then the line and the matrix. */
  method EliminateRowInPlace(A: array2<real>, log: Log, col: nat, r: nat, iter: nat, ghost before: seq<Event>, ghost s: Run)
    returns (next: nat, ghost t: Run)
    requires Holds(A, log, before, s) && s.iter == iter && r < A.Length0 && col < A.Length0
    modifies A, log, log.lines
    ensures t == EliminateRow(s, col, r)
    ensures Holds(A, log, before, t) && next == t.iter && |t.m| == |s.m|
    ensures EliminateFrom(s, col, r) == EliminateFrom(t, col, r + 1)
  {
    next, t := iter, s;
    if r == col {
      return;
    }
    var factor := A[r, col];
    if Abs(factor) < Eps {
      return;
    }
    t := Step(s, Elim(iter, r + 1, factor, col + 1), Subtracted(s.m, r, col, col, factor));
    SubtractRow(A, r, col, col, factor);
    log.Append(Elim(iter, r + 1, factor, col + 1));
    log.LogMatrix(A);
    AppendStep(before, s.events, Elim(iter, r + 1, factor, col + 1), MatrixLines(Subtracted(s.m, r, col, col, factor)));
    next := iter + 1;
  }

  /** The elimination loop of column `col` over all rows. */
  method EliminateColumn(A: array2<real>, log: Log, col: nat, iter: nat, ghost before: seq<Event>, ghost s: Run)
    returns (next: nat)
    requires Holds(A, log, before, s) && s.iter == iter && col < A.Length0
    modifies A, log, log.lines
    ensures Holds(A, log, before, EliminateFrom(s, col, 0))
    ensures next == EliminateFrom(s, col, 0).iter
  {
    ghost var goal := EliminateFrom(s, col, 0);
    ghost var cur := s;
    next := iter;
    var r := 0;
    while r < A.Length0
      invariant 0 <= r <= A.Length0
      invariant Holds(A, log, before, cur) && cur.iter == next && |cur.m| == A.Length0
      invariant EliminateFrom(cur, col, r) == goal
    {
      next, cur := EliminateRowInPlace(A, log, col, r, next, before, cur);
      r := r + 1;
    }
    assert cur == goal;
  }

  /** One pass of the column loop, then the rest of the loop unless the
      pass ended the run. */
  lemma ColumnsStep(s: Run, col: nat)
    requires Augmented(s.m) && col < |s.m|
    ensures var t := ColumnStep(s, col);
      Columns(s, col) == if t.status == Running then Columns(t, col + 1) else t
  {
  }

  /** The two ways a pass of the column loop goes, by the pivot found. */
  lemma ColumnStepCases(s: Run, col: nat)
    requires Augmented(s.m) && col < |s.m|
    ensures var p := PivotOf(s.m, col);
      && (Abs(s.m[p][col]) < Eps ==> ColumnStep(s, col) == SingularStop(s, col))
      && (Abs(s.m[p][col]) >= Eps ==>
            && Abs(SwapStep(s, col, p).m[col][col]) >= Eps
            && ColumnStep(s, col) == EliminateFrom(ScaleStep(SwapStep(s, col, p), col), col, 0))
  {
  }

  /** The singular exit: the line and the unchanged matrix. */
  method SingularInPlace(A: array2<real>, log: Log, col: nat, iter: nat, ghost before: seq<Event>, ghost s: Run)
    requires Holds(A, log, before, s) && s.iter == iter
    modifies log, log.lines
    ensures Holds(A, log, before, SingularStop(s, col))
  {
    log.Append(Singular(iter, col + 1));
    log.LogMatrix(A);
    AppendStep(before, s.events, Singular(iter, col + 1), MatrixLines(s.m));
  }

  /** A pass with a usable pivot: the swap, the scaling and the elimination
      of column `col`. */
  method ReduceColumn(A: array2<real>, log: Log, col: nat, pivot: nat, iter: nat, ghost before: seq<Event>, ghost s: Run)
    returns (next: nat)
    requires Holds(A, log, before, s) && s.iter == iter && col <= pivot < A.Length0
    requires Abs(SwapStep(s, col, pivot).m[col][col]) >= Eps
    modifies A, log, log.lines
    ensures var t := EliminateFrom(ScaleStep(SwapStep(s, col, pivot), col), col, 0);
      Holds(A, log, before, t) && next == t.iter
  {
    ghost var s1 := SwapStep(s, col, pivot);
    var it := iter;
    if pivot != col {
      SwapInPlace(A, log, col, pivot, iter, before, s);
      it := iter + 1;
    }
    assert s1.iter == it && Holds(A, log, before, s1);
    if Abs(A[col, col]) < Eps {
      assert false;
    }
    ghost var s2 := ScaleStep(s1, col);
    ScaleInPlace(A, log, col, it, before, s1);
    next := EliminateColumn(A, log, col, it + 1, before, s2);
  }

  /** One pass of the column loop on the array, logging as it goes; `stop`
      is set when the pass ends the run. */
  method ProcessColumn(A: array2<real>, log: Log, col: nat, iter: nat, ghost before: seq<Event>, ghost s: Run)
    returns (next: nat, stop: bool, ghost t: Run)
    requires Holds(A, log, before, s) && s.iter == iter && s.status == Running && col < A.Length0
    modifies A, log, log.lines
    ensures t == ColumnStep(s, col)
    ensures Holds(A, log, before, t) && next == t.iter && stop == (t.status != Running)
  {
    t := ColumnStep(s, col);
    var pivot, best := FindPivot(A, col);
    ColumnStepCases(s, col);
    if best < Eps {
      assert t == SingularStop(s, col);
      SingularInPlace(A, log, col, iter, before, s);
      return iter + 1, true, t;
    }
    assert t == EliminateFrom(ScaleStep(SwapStep(s, col, pivot), col), col, 0);
    next := ReduceColumn(A, log, col, pivot, iter, before, s);
    stop := false;
  }

  /** A pass of the column loop, stated in terms of the whole loop: the run
      ends with the pass, or goes on from it at the next column. */
  method ColumnPass(A: array2<real>, log: Log, col: nat, iter: nat, ghost before: seq<Event>, ghost s: Run)
    returns (next: nat, stop: bool, ghost t: Run)
    requires Holds(A, log, before, s) && s.iter == iter && s.status == Running && col < A.Length0
    modifies A, log, log.lines
    ensures Holds(A, log, before, t) && next == t.iter && |t.m| == |s.m|
    ensures stop ==> Columns(s, col) == t
    ensures !stop ==> t.status == Running && Columns(s, col) == Columns(t, col + 1)
  {
    next, stop, t := ProcessColumn(A, log, col, iter, before, s);
    ColumnsStep(s, col);
  }

  /** The closing lines of a solved run: "Finished", the matrix, "Solution x:"
      and the last column, one line per unknown. */
  method LogEpilogue(A: array2<real>, log: Log, ghost before: seq<Event>, ghost s: Run)
    requires Holds(A, log, before, s)
    modifies log, log.lines
    ensures Augmented(s.m) && Holds(A, log, before, Finish(s))
    ensures Holds(A, log, before, Columns(s, |s.m|))
  {
    var n := A.Length0;
    ghost var m := s.m;
    log.Append(Finished);
    log.LogMatrix(A);
    log.Append(SolutionHeader);
    ghost var head := [Finished] + MatrixLines(m) + [SolutionHeader];
    AppendHead(before + s.events, Finished, MatrixLines(m), SolutionHeader);
    assert head + SolutionLines(m)[..0] == head;
    var i := 0;
    while i < n
      invariant 0 <= i <= n
      invariant log.Valid() && log.Written == before + s.events + (head + SolutionLines(m)[..i])
    {
      log.Append(Solution(i, A[i, n]));
      assert SolutionLines(m)[..i + 1] == SolutionLines(m)[..i] + [Solution(i, A[i, n])];
      AppendAssoc(before + s.events, head + SolutionLines(m)[..i], [Solution(i, A[i, n])]);
      AppendAssoc(head, SolutionLines(m)[..i], [Solution(i, A[i, n])]);
      i := i + 1;
    }
    assert SolutionLines(m)[..n] == SolutionLines(m);
    AppendAssoc(before, s.events, Epilogue(m));
  }

  /** The column loop of `gauss_jordan_verbose`, from the run `s0` that
      the initial matrix left, through the closing lines of a solved run. */
  method ColumnLoop(A: array2<real>, log: Log, iter0: nat, ghost before: seq<Event>, ghost s0: Run)
    requires Holds(A, log, before, s0) && s0.iter == iter0 && s0.status == Running
    modifies A, log, log.lines
    ensures Holds(A, log, before, Columns(s0, 0))
  {
    ghost var goal := Columns(s0, 0);
    ghost var s := s0;
    var iter := iter0;
    var n := A.Length0;
    var col := 0;
    while col < n
      invariant 0 <= col <= n
      invariant Holds(A, log, before, s) && s.iter == iter && s.status == Running && |s.m| == n
      invariant Columns(s, col) == goal
    {
      var stop;
      ghost var t;
      iter, stop, t := ColumnPass(A, log, col, iter, before, s);
      if stop {
        return;
      }
      s := t;
      col := col + 1;
    }
    LogEpilogue(A, log, before, s);
  }

  /** `gauss_jordan_verbose` on the array `A` and the log. */
  method GaussJordanVerbose(A: array2<real>, log: Log)
    requires A.Length1 == A.Length0 + 1
    requires log.Valid()
    modifies A, log, log.lines
    ensures log.Valid()
    ensures Snapshot(A) == GaussJordan(old(Snapshot(A))).m
    ensures log.Written == old(log.Written) + GaussJordan(old(Snapshot(A))).events
  {
    ghost var before := log.Written;
    ghost var m := Snapshot(A);
    log.Append(Initial);
    log.LogMatrix(A);
    AppendAssoc(before, [Initial], MatrixLines(m));
    ColumnLoop(A, log, 1, before, Run(m, [Initial] + MatrixLines(m), 1, Running));
  }

  /** The reset of the log in `main` followed by the run: afterwards the log
      holds exactly the lines of the run. */
  method Solve(A: array2<real>, log: Log)
    requires A.Length1 == A.Length0 + 1 && A.Length0 <= MaxRows
    requires log.Valid()
    modifies A, log, log.lines
    ensures log.Valid() && Snapshot(A) == GaussJordan(old(Snapshot(A))).m
    ensures log.Lines() == GaussJordan(old(Snapshot(A))).events
  {
    ghost var m := Snapshot(A);
    log.Reset();
    GaussJordanVerbose(A, log);
    RunFitsLog(m);
    assert log.Written == GaussJordan(m).events;
  }
}
