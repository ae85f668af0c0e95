/** The step log: a fixed buffer of 280 lines and a count of lines used
    (`LOGBUF`, `log_count`). A line is kept as the event it reports rather
    than as formatted text; `log_matrix` appends the augmented matrix as a
    header, one line per row and a blank line. */
module StepLog {
  import opened Matrices

  const MaxLines: nat := 280

  /** One line of the log. Row and column numbers are stored as printed
      (1-based); the solution index as printed (0-based). */
  datatype Event =
    | Initial                                      // "Initial matrix:"
    | Header                                       // "Matrix [A | b]:"
    | Row(values: seq<real>)                       // one row of [A | b]
    | Blank                                        // ""
    | Singular(iter: nat, col: nat)                // "~0 pivot in column col"
    | Swap(iter: nat, row: nat, other: nat)        // "Swap Rrow <-> Rother"
    | Scale(iter: nat, row: nat, inv: real)        // "Scale Rrow by inv (pivot->1)"
    | Vanished(iter: nat)                          // "pivot vanished; abort."
    | Elim(iter: nat, row: nat, factor: real, pivot: nat)  // "Rrow <- Rrow - (factor) * Rpivot"
    | Finished                                     // "Finished Gauss-Jordan. Expect [I | x]."
    | SolutionHeader                               // "Solution x:"
    | Solution(index: nat, value: real)            // "  x[index] = value"
  {
    /** The lines that carry an "Iter %d:" number. */
    predicate IsStep()
    {
      Singular? || Swap? || Scale? || Vanished? || Elim?
    }

    /** The closing lines written only after a successful elimination. */
    predicate IsResult()
    {
      Finished? || SolutionHeader? || Solution?
    }
  }

  // ---------------------------------------------------------------------------
  // Matrix rendering

  /** The lines `log_matrix` writes for matrix `m`. */
  function MatrixLines(m: seq<seq<real>>): (r: seq<Event>)
    ensures |r| == |m| + 2 && r[0] == Header && r[|m| + 1] == Blank
    ensures forall k :: 1 <= k <= |m| ==> r[k] == Row(m[k - 1])
  {
    [Header] + RowLines(m) + [Blank]
  }

  function RowLines(m: seq<seq<real>>): (r: seq<Event>)
    ensures |r| == |m| && forall i :: 0 <= i < |m| ==> r[i] == Row(m[i])
  {
    seq(|m|, i requires 0 <= i < |m| => Row(m[i]))
  }

  lemma RowLinesSnoc(m: seq<seq<real>>, i: nat)
    requires i < |m|
    ensures RowLines(m[..i + 1]) == RowLines(m[..i]) + [Row(m[i])]
  {
  }

  lemma MatrixLinesSplit(m: seq<seq<real>>, w: seq<Event>)
    ensures w + [Header] + RowLines(m[..|m|]) + [Blank] == w + MatrixLines(m)
  {
    assert m[..|m|] == m;
  }

  /** Logs are built by appending. The four lemmas below regroup appended
      pieces: three logs in a row, a step line with its listing, the closing
      lines, and a log split back into the two pieces it was made of. */
  lemma AppendAssoc(a: seq<Event>, b: seq<Event>, c: seq<Event>)
    ensures a + b + c == a + (b + c)
  {
  }

  /** A step's line and its matrix listing, logged one after the other. */
  lemma AppendStep(b: seq<Event>, t: seq<Event>, e: Event, u: seq<Event>)
    ensures b + t + [e] + u == b + (t + ([e] + u))
  {
  }

  /** Three closing pieces logged one after the other. */
  lemma AppendHead(b: seq<Event>, e: Event, u: seq<Event>, f: Event)
    ensures b + [e] + u + [f] == b + ([e] + u + [f])
  {
  }

  lemma AppendSplit(a: seq<Event>, b: seq<Event>)
    ensures (a + b)[..|a|] == a && (a + b)[|a|..] == b
  {
  }

  // ---------------------------------------------------------------------------
  // Capacity

  /** What the buffer holds after the lines `w` were offered to an empty log:
      the first 280 of them, later ones being dropped. */
  function Capped(w: seq<Event>): (r: seq<Event>)
    ensures |r| <= MaxLines && r <= w
    ensures |w| <= MaxLines ==> r == w
    ensures |w| >= MaxLines ==> |r| == MaxLines
  {
    if |w| <= MaxLines then w else w[..MaxLines]
  }

  /** Offering more lines never changes a line already in the buffer: the
      earlier contents are a prefix of the later ones. */
  lemma CappedGrows(w: seq<Event>, u: seq<Event>)
    ensures Capped(w) <= Capped(w + u)
    ensures |Capped(w)| <= |Capped(w + u)|
  {
    if |w| >= MaxLines {
      assert (w + u)[..MaxLines] == w[..MaxLines];
    } else if |w + u| > MaxLines {
      assert (w + u)[..MaxLines][..|w|] == w;
    }
  }

  // ---------------------------------------------------------------------------
  // Iteration numbers

  /** How many numbered lines `t` holds. */
  function StepCount(t: seq<Event>): nat
  {
    if t == [] then 0
    else (if t[0].IsStep() then 1 else 0) + StepCount(t[1..])
  }

  /** The numbered lines of `t` are numbered `first`, `first + 1`, ... in order. */
  ghost predicate NumberedFrom(t: seq<Event>, first: nat)
  {
    if t == [] then true
    else if t[0].IsStep() then t[0].iter == first && NumberedFrom(t[1..], first + 1)
    else NumberedFrom(t[1..], first)
  }

  /** The count of numbered lines is additive. */
  lemma {:induction false} StepCountConcat(t: seq<Event>, u: seq<Event>)
    ensures StepCount(t + u) == StepCount(t) + StepCount(u)
    decreases |t|
  {
    if t == [] {
      assert t + u == u;
    } else {
      assert (t + u)[1..] == t[1..] + u;
      StepCountConcat(t[1..], u);
    }
  }

  /** Lines without a number neither count nor break a numbering. */
  lemma {:induction false} StepCountNone(t: seq<Event>, first: nat)
    requires forall k :: 0 <= k < |t| ==> !t[k].IsStep()
    ensures StepCount(t) == 0 && NumberedFrom(t, first)
    decreases |t|
  {
    if t != [] {
      StepCountNone(t[1..], first);
    }
  }

  /** Numbering carries over a concatenation when the second part continues
      where the first one stopped. */
  lemma {:induction false} NumberedConcat(t: seq<Event>, u: seq<Event>, first: nat)
    requires NumberedFrom(t, first) && NumberedFrom(u, first + StepCount(t))
    ensures NumberedFrom(t + u, first)
    decreases |t|
  {
    if t == [] {
      assert t + u == u;
    } else {
      assert (t + u)[0] == t[0] && (t + u)[1..] == t[1..] + u;
      NumberedConcat(t[1..], u, if t[0].IsStep() then first + 1 else first);
    }
  }

  /** A numbered line followed by a matrix listing, as every step logs it. */
  lemma StepThenMatrix(e: Event, m: seq<seq<real>>)
    requires e.IsStep()
    ensures NumberedFrom([e] + MatrixLines(m), e.iter)
    ensures StepCount([e] + MatrixLines(m)) == 1
  {
    var t := [e] + MatrixLines(m);
    assert t[0] == e && t[1..] == MatrixLines(m);
    StepCountNone(MatrixLines(m), e.iter + 1);
  }

  // ---------------------------------------------------------------------------
  // The buffer

  /** `LOGBUF` and `log_count`. `Written` is every line offered since the
      last reset, including those dropped once the buffer was full. */
  class Log {
    const lines: array<Event>
    var count: nat
    ghost var Written: seq<Event>

    ghost predicate Valid()
      reads this, lines
    {
      lines.Length == MaxLines && count <= MaxLines && lines[..count] == Capped(Written)
    }

    /** The lines in use, `LOGBUF[0 .. log_count)`. */
    ghost function Lines(): seq<Event>
      reads this, lines
      requires count <= lines.Length
    {
      lines[..count]
    }

    constructor ()
      ensures Valid() && fresh(lines) && Written == [] && count == 0
    {
      lines := new Event[MaxLines](_ => Blank);
      count := 0;
      Written := [];
    }

    /** `log_count = 0`: the log is emptied before a run. */
    method Reset()
      requires Valid()
      modifies this
      ensures Valid() && Written == [] && count == 0 && Lines() == []
    {
      count := 0;
      Written := [];
    }

    /** `log_line`: a line goes into the next free slot; on a full buffer
        nothing is stored. No other slot changes. */
    method Append(e: Event)
      requires Valid()
      modifies this, lines
      ensures Valid() && Written == old(Written) + [e]
      ensures count == if old(count) < MaxLines then old(count) + 1 else old(count)
      ensures old(count) < MaxLines ==> lines[old(count)] == e
      ensures forall k :: 0 <= k < MaxLines && k != old(count) ==> lines[k] == old(lines[k])
    {
      if count >= MaxLines {
        assert (Written + [e])[..MaxLines] == Written[..MaxLines];
        Written := Written + [e];
        return;
      }
      lines[count] := e;
      count := count + 1;
      Written := Written + [e];
    }

    /** `log_matrix`: the header, the rows of `A` top to bottom, a blank line. */
    method LogMatrix(A: array2<real>)
      requires Valid()
      modifies this, lines
      ensures Valid() && Written == old(Written) + MatrixLines(Snapshot(A))
    {
      ghost var m := Snapshot(A);
      Append(Header);
      ghost var start := Written;
      var i := 0;
      while i < A.Length0
        invariant 0 <= i <= A.Length0
        invariant Valid() && Written == start + RowLines(m[..i])
      {
        assert RowOf(A, i) == m[i];
        Append(Row(RowOf(A, i)));
        RowLinesSnoc(m, i);
        i := i + 1;
      }
      Append(Blank);
      MatrixLinesSplit(m, old(Written));
    }
  }
}
